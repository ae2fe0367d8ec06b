/**
 * Template parameter substitution.  A Java template's code holds `#{...}`
 * placeholders; each one is replaced, in order, by a piece of code that
 * stands for the next template parameter and carries the marker comment
 * `/*__p<i>__*/` naming that parameter's index.  After the template is
 * parsed, unsubstitution reads those markers back out of the comments in a
 * tree's prefix to put the parameters themselves back in place.
 *
 * The placeholder scanner (PropertyPlaceholderHelper), the matcher-key
 * grammar and the tree visitor are not part of this model: the scanner's
 * split of the code and the parsed keys are inputs, and the visitor is a
 * function parameter.
 */
module JavaTemplates {
  import opened Wrappers
  import opened Strings
  import opened Numbers
  import opened JavaTypes
  import opened Formatting

  // ---------------------------------------------------------------------------
  // Parameters

  /** The J tree kinds substitution tells apart. */
  datatype TreeKind = AnnotationTree | BlockTree | LiteralTree | VariableDeclarationsTree | OtherTree

  /**
   * A J tree, as far as substitution looks at it: its kind, its prefix,
   * whether it is a TypedTree (and then its type attribution), and what
   * printTrimmed gives for it.
   */
  datatype Tree = Tree(kind: TreeKind, prefix: Space, typedTree: bool, typ: Option<Ref>, printed: string)

  /** A template parameter: a J tree, a JRightPadded or JLeftPadded around one, or any other object. */
  datatype Param =
    | JParam(tree: Tree)
    | RightPaddedParam(element: Param)
    | LeftPaddedParam(element: Param)
    | OtherObject(text: string)

  /** The exceptions the code throws, named after their cause. */
  datatype Failure =
    | IndexOutOfBounds   // more placeholders (or a larger marker index) than parameters
    | AnyArrayUntyped    // anyArray on a parameter that is not a TypedTree
    | AnyArrayNotArray   // anyArray on a type that is not an array (nor a method returning one)
    | NullSignature      // a method type without a resolved signature is dereferenced
    | NotATree           // a parameter cast to J that is not a J
    | InvalidMatcher     // a matcher name other than any and anyArray
    | NotAParameter      // a J kind substituteSingle does not accept
    | NumberFormat       // a marker index beyond Integer.MAX_VALUE
    | Unstable           // the substitution did not reach a fixpoint within the rounds given

  datatype Result<+T> = Ok(value: T) | Err(failure: Failure)

  /** A placeholder's key: empty, or a parsed matcher pattern with its name and its parameters' texts. */
  datatype Key = EmptyKey | Matcher(name: string, params: seq<string>)

  const EmptySpace: Space := Space("", [])

  predicate ParamBelow(p: Param, b: nat)
  {
    match p
    case JParam(t) => OptBelow(t.typ, b)
    case RightPaddedParam(e) => ParamBelow(e, b)
    case LeftPaddedParam(e) => ParamBelow(e, b)
    case OtherObject(_) => true
  }

  predicate AllParamsBelow(ps: seq<Param>, b: nat) { forall k :: 0 <= k < |ps| ==> ParamBelow(ps[k], b) }

  // ---------------------------------------------------------------------------
  // Marker comments

  /** The text of the marker comment for parameter `i`: `__p<i>__`. */
  function Marker(i: nat): string { "__p" + NatText(i) + "__" }

  /** What every placeholder for parameter `i` opens with: a parenthesis and the marker comment. */
  function Open(i: nat): string { "(/*" + Marker(i) + "*/" }

  /** The PATTERN_COMMENT regex `__p(\d+)__`, matched against a whole comment text. */
  predicate IsMarker(t: string)
  {
    |t| >= 6 && t[..3] == "__p" && t[|t| - 2..] == "__" && AllDigits(t[3..|t| - 2])
  }

  datatype IndexOutcome = NoIndex | Index(n: nat) | IndexOverflow

  /** Integer.valueOf of the digits a marker holds: an int, or a NumberFormatException past MAX_VALUE. */
  function MarkerIndex(t: string): (r: IndexOutcome)
    ensures r.NoIndex? <==> !IsMarker(t)
    ensures r.Index? ==> r.n <= MaxInt
  {
    if !IsMarker(t) then NoIndex
    else
      var n := DigitsValue(t[3..|t| - 2]);
      if n > MaxInt then IndexOverflow else Index(n)
  }

  /** The marker of parameter `i` is recognised as such and read back as `i`. */
  lemma MarkerRoundTrip(i: nat)
    requires i <= MaxInt
    ensures IsMarker(Marker(i))
    ensures MarkerIndex(Marker(i)) == Index(i)
  {
    var m := Marker(i);
    assert m[3..|m| - 2] == NatText(i);
    DigitsValueOfText(i);
  }

  /** A comment that is a marker: a text comment whose whole text matches the pattern. */
  predicate IsMarkerComment(c: Comment) { c.TextComment? && IsMarker(c.text) }

  /** The outcome of parameterIndex: the first marker comment decides, the others are never looked at. */
  function FirstMarker(cs: seq<Comment>): (r: IndexOutcome)
    ensures r.Index? ==> r.n <= MaxInt
  {
    if cs == [] then NoIndex
    else if IsMarkerComment(cs[0]) then MarkerIndex(cs[0].text)
    else FirstMarker(cs[1..])
  }

  /** No index exactly when none of the comments is a marker. */
  lemma {:induction false} FirstMarkerNone(cs: seq<Comment>)
    ensures FirstMarker(cs) == NoIndex <==> forall k :: 0 <= k < |cs| ==> !IsMarkerComment(cs[k])
  {
    if cs != [] {
      FirstMarkerNone(cs[1..]);
      assert forall k :: 1 <= k < |cs| ==> cs[k] == cs[1..][k - 1];
    }
  }

  /** Comments before the first marker do not matter: the first marker comment gives the outcome. */
  lemma {:induction false} FirstMarkerSkips(before: seq<Comment>, c: Comment, after: seq<Comment>)
    requires forall k :: 0 <= k < |before| ==> !IsMarkerComment(before[k])
    requires IsMarkerComment(c)
    ensures FirstMarker(before + [c] + after) == MarkerIndex(c.text)
    decreases |before|
  {
    if before != [] {
      assert (before + [c] + after)[1..] == before[1..] + [c] + after;
      FirstMarkerSkips(before[1..], c, after);
    }
  }

  /**
   * Space.getComments scanned for the first TextComment matching the
   * marker pattern, returning its index, or nothing when no comment is one.
   */
  method ParameterIndex(space: Space) returns (r: IndexOutcome)
    ensures r == FirstMarker(space.comments)
  {
    var cs := space.comments;
    var k := 0;
    while k < |cs|
      invariant 0 <= k <= |cs|
      invariant FirstMarker(cs) == FirstMarker(cs[k..])
    {
      assert cs[k..][1..] == cs[k + 1..];
      if IsMarkerComment(cs[k]) {
        return MarkerIndex(cs[k].text);
      }
      k := k + 1;
    }
    return NoIndex;
  }

  // ---------------------------------------------------------------------------
  // The `any` placeholder

  /** The default value written for a placeholder of a primitive type (void and the pseudo-types get none). */
  function PrimitiveDefault(p: Primitive): string
  {
    match p
    case Boolean => "true"
    case Double => "0"
    case Float => "0"
    case Int => "0"
    case Long => "0"
    case Short => "(short)0"
    case Byte => "(byte)0"
    case Char => "'\0'"
    case String => "\"\""
    case _ => ""
  }

  /**
   * The code for `#{any(...)}` standing for parameter `i` of type `fqn`: a
   * primitive keyword gets its default value, `Object` a bare null, and any
   * other name a null cast to that type, all behind the marker comment.
   */
  function AnyText(i: nat, fqn: string): (r: string)
    ensures Open(i) <= r && r[|r| - 1] == ')'
  {
    match FromKeyword(fqn)
    case Some(p) => Open(i) + PrimitiveDefault(p) + ")"
    case None => if fqn == "Object" then Open(i) + "null)" else Open(i) + "(" + fqn + ")null)"
  }

  /** A primitive's keyword gives that primitive's default value behind the marker. */
  lemma AnyPrimitive(i: nat, p: Primitive)
    ensures AnyText(i, Keyword(p)) == Open(i) + PrimitiveDefault(p) + ")"
  {
  }

  /** Only the simple name `Object` yields a bare null; a qualified name such as java.lang.Object is cast. */
  lemma AnyObjectForms(i: nat)
    ensures AnyText(i, "Object") == Open(i) + "null)"
    ensures AnyText(i, "java.lang.Object") == Open(i) + "(java.lang.Object)null)"
  {
    assert FromKeyword("java.lang.Object") == None;
  }

  /** A name that is no primitive keyword and not `Object` is cast: the placeholder mentions it verbatim. */
  lemma AnyCast(i: nat, fqn: string)
    requires FromKeyword(fqn).None? && fqn != "Object"
    ensures AnyText(i, fqn) == Open(i) + "(" + fqn + ")null)"
  {
  }

  /**
   * getTypeName: the name `any` gives a parameter's type when none is
   * spelled out.  A method type stands for its return type; a type that is
   * missing or neither fully qualified nor primitive reads as
   * java.lang.Object; a method without a resolved signature is a
   * NullPointerException.
   */
  function GetTypeName(a: seq<Desc>, t: Option<Ref>): (r: Result<string>)
    requires Acyclic(a) && OptBelow(t, |a|)
    ensures r.Err? ==> r.failure == NullSignature
    decreases if t.Some? then t.value + 1 else 0
  {
    if t.None? then Ok("java.lang.Object")
    else
      var d := a[t.value];
      if IsFullyQualified(d) then Ok(FullyQualifiedName(a, t.value))
      else if d.PrimitiveType? then Ok(Keyword(d.primitive))
      else if d.Method? then
        if d.resolvedSignature.None? then Err(NullSignature)
        else GetTypeName(a, d.resolvedSignature.value.returnType)
      else Ok("java.lang.Object")
  }

  /** The return type a method type stands for, following nested method types; `None` for a missing signature. */
  function ResultType(a: seq<Desc>, t: Option<Ref>): (r: Option<Option<Ref>>)
    requires Acyclic(a) && OptBelow(t, |a|)
    ensures r.Some? ==> OptBelow(r.value, |a|) && (r.value.Some? ==> !a[r.value.value].Method?)
    decreases if t.Some? then t.value + 1 else 0
  {
    if t.Some? && a[t.value].Method? then
      var s := a[t.value].resolvedSignature;
      if s.None? then None else ResultType(a, s.value.returnType)
    else Some(t)
  }

  /** getTypeName goes through method types to their ultimate return type and names that. */
  lemma {:induction false} GetTypeNameOfResult(a: seq<Desc>, t: Option<Ref>)
    requires Acyclic(a) && OptBelow(t, |a|)
    ensures ResultType(a, t).None? <==> GetTypeName(a, t).Err?
    ensures ResultType(a, t).Some? ==> GetTypeName(a, t) == GetTypeName(a, ResultType(a, t).value)
    decreases if t.Some? then t.value + 1 else 0
  {
    if t.Some? && a[t.value].Method? && a[t.value].resolvedSignature.Some? {
      GetTypeNameOfResult(a, a[t.value].resolvedSignature.value.returnType);
    }
  }

  /** A primitive type is named by its keyword, which `any` turns back into that primitive's default. */
  lemma AnyOfPrimitiveType(a: seq<Desc>, i: nat, t: Ref)
    requires Acyclic(a) && t < |a| && a[t].PrimitiveType?
    ensures GetTypeName(a, Some(t)) == Ok(Keyword(a[t].primitive))
    ensures AnyText(i, GetTypeName(a, Some(t)).value) == Open(i) + PrimitiveDefault(a[t].primitive) + ")"
  {
  }

  // ---------------------------------------------------------------------------
  // The `anyArray` placeholder

  /** TypeUtils.asArray: the type itself when it is an array. */
  function AsArray(a: seq<Desc>, t: Option<Ref>): (r: Option<Ref>)
    requires OptBelow(t, |a|)
    ensures r.Some? ==> r.value < |a| && a[r.value].Array?
  {
    if t.Some? && a[t.value].Array? then t else None
  }

  /** The array type an anyArray parameter is attributed with: its own type, or a method's return type. */
  function AttributedArray(a: seq<Desc>, t: Option<Ref>): (r: Result<Ref>)
    requires OptBelow(t, |a|) && Acyclic(a)
    ensures r.Ok? ==> r.value < |a| && a[r.value].Array?
    ensures r.Err? ==> r.failure in {NullSignature, AnyArrayNotArray}
  {
    if AsArray(a, t).Some? then Ok(t.value)
    else if t.Some? && a[t.value].Method? then
      var s := a[t.value].resolvedSignature;
      if s.None? then Err(NullSignature)
      else match AsArray(a, s.value.returnType)
        case Some(arr) => Ok(arr)
        case None => Err(AnyArrayNotArray)
    else Err(AnyArrayNotArray)
  }

  /** The number of array types nested in `t`, counting `t` itself. */
  function Rank(a: seq<Desc>, t: Ref): (r: nat)
    requires Acyclic(a) && t < |a| && a[t].Array?
    ensures r >= 1
    decreases t
  {
    var e := a[t].elemType;
    if e.Some? && a[e.value].Array? then Rank(a, e.value) + 1 else 1
  }

  /** The innermost array type nested in `t`: the one whose element type is not an array. */
  function Innermost(a: seq<Desc>, t: Ref): (r: Ref)
    requires Acyclic(a) && t < |a| && a[t].Array?
    ensures r <= t && a[r].Array?
    ensures !(a[r].elemType.Some? && a[a[r].elemType.value].Array?)
    decreases t
  {
    var e := a[t].elemType;
    if e.Some? && a[e.value].Array? then Innermost(a, e.value) else t
  }

  /** The name written after `new`: a primitive's keyword, a fully qualified name, or nothing. */
  function ElementName(a: seq<Desc>, e: Option<Ref>): string
    requires Acyclic(a) && OptBelow(e, |a|)
  {
    if e.None? then ""
    else if a[e.value].PrimitiveType? then Keyword(a[e.value].primitive)
    else if IsFullyQualified(a[e.value]) then FullyQualifiedName(a, e.value)
    else ""
  }

  /** `n` array dimensions of length zero. */
  function ZeroDims(n: nat): (r: string)
    ensures |r| == 3 * n
  {
    if n == 0 then "" else ZeroDims(n - 1) + "[0]"
  }

  lemma {:induction false} ZeroDimsCons(n: nat)
    ensures "[0]" + ZeroDims(n) == ZeroDims(n + 1)
  {
    if n > 0 {
      ZeroDimsCons(n - 1);
    }
  }

  /**
   * The code for `#{anyArray()}` standing for parameter `i` of array type
   * `arr`: an empty array creation of the innermost element type with one
   * `[0]` for each dimension of `arr`.
   */
  function AnyArrayText(a: seq<Desc>, i: nat, arr: Ref): (r: string)
    requires Acyclic(a) && arr < |a| && a[arr].Array?
  {
    Open(i) + "new " + ElementName(a, a[Innermost(a, arr)].elemType) + ZeroDims(Rank(a, arr)) + ")"
  }

  /** The extraDim loop: walks to the innermost array, collecting one `[0]` per nested array. */
  method NewArrayText(a: seq<Desc>, i: nat, arr: Ref) returns (s: string)
    requires Acyclic(a) && arr < |a| && a[arr].Array?
    ensures s == AnyArrayText(a, i, arr)
  {
    s := Open(i) + "new ";
    var cur: Ref := arr;
    var extraDim := "";
    var steps := 0;
    while a[cur].elemType.Some? && a[a[cur].elemType.value].Array?
      invariant cur <= arr && a[cur].Array?
      invariant Innermost(a, cur) == Innermost(a, arr)
      invariant Rank(a, arr) == steps + Rank(a, cur)
      invariant extraDim == ZeroDims(steps)
      decreases cur
    {
      assert Below(a[cur], cur);
      extraDim := extraDim + "[0]";
      steps := steps + 1;
      cur := a[cur].elemType.value;
    }
    s := s + ElementName(a, a[cur].elemType);
    ZeroDimsCons(steps);
    s := s + ("[0]" + extraDim) + ")";
  }

  /** A one-dimensional int array is written as an empty `new int[0]`. */
  lemma AnyArrayOfInts(a: seq<Desc>, i: nat, arr: Ref)
    requires WellFormed(a) && arr < |a| && a[arr] == Array(Some(5))
    ensures AnyArrayText(a, i, arr) == Open(i) + "new int[0])"
  {
    assert a[5] == PrimitiveType(PrimitiveAt(5));
  }

  // ---------------------------------------------------------------------------
  // One placeholder

  /** substituteSingle's view of a parameter: the padding wrappers removed. */
  function Unpadded(p: Param): (r: Param)
    ensures !r.RightPaddedParam? && !r.LeftPaddedParam?
  {
    match p
    case RightPaddedParam(e) => Unpadded(e)
    case LeftPaddedParam(e) => Unpadded(e)
    case _ => p
  }

  /**
   * substituteSingle: the code for a placeholder with an empty key.  An
   * annotation becomes its reference annotation, a block an empty block
   * behind the marker comment, a literal or variable declaration its own
   * printed text; other J kinds are refused, padding is looked through, and
   * any other object is written as its string form.
   */
  function SubstituteSingle(p: Param, i: nat): (r: Result<string>)
    ensures r.Err? <==> Unpadded(p).JParam? && Unpadded(p).tree.kind == OtherTree
    ensures r.Err? ==> r.failure == NotAParameter
  {
    match p
    case JParam(t) =>
      (match t.kind
       case AnnotationTree => Ok("@SubAnnotation(" + NatText(i) + ")")
       case BlockTree => Ok("/*" + Marker(i) + "*/{}")
       case LiteralTree => Ok(t.printed)
       case VariableDeclarationsTree => Ok(t.printed)
       case OtherTree => Err(NotAParameter))
    case RightPaddedParam(e) => SubstituteSingle(e, i)
    case LeftPaddedParam(e) => SubstituteSingle(e, i)
    case OtherObject(text) => Ok(text)
  }

  /** Padding is transparent: a padded parameter is substituted as its element. */
  lemma {:induction false} SubstituteSingleUnpadded(p: Param, i: nat)
    ensures SubstituteSingle(p, i) == SubstituteSingle(Unpadded(p), i)
  {
    match p
    case RightPaddedParam(e) => SubstituteSingleUnpadded(e, i);
    case LeftPaddedParam(e) => SubstituteSingleUnpadded(e, i);
    case _ =>
  }

  /** The name `any` gives: the one spelled in the key, else the parameter's type name, else java.lang.Object. */
  function AnyName(a: seq<Desc>, p: Param, params: seq<string>): (r: Result<string>)
    requires Acyclic(a) && ParamBelow(p, |a|)
    ensures |params| == 1 ==> r == Ok(params[0])
    ensures |params| != 1 && !(p.JParam? && p.tree.typedTree) ==> r == Ok("java.lang.Object")
  {
    if |params| == 1 then Ok(params[0])
    else if p.JParam? && p.tree.typedTree then GetTypeName(a, p.tree.typ)
    else Ok("java.lang.Object")
  }

  /**
   * The body of the placeholder callback for parameter `i`: the code that
   * replaces a placeholder with key `key`, or the exception it throws.
   */
  function PlaceholderText(a: seq<Desc>, ps: seq<Param>, i: nat, key: Key): (r: Result<string>)
    requires Acyclic(a) && AllParamsBelow(ps, |a|)
  {
    if i >= |ps| then Err(IndexOutOfBounds)
    else
      var p := ps[i];
      match key
      case EmptyKey => SubstituteSingle(p, i)
      case Matcher(name, params) =>
        if name == "anyArray" then
          if !(p.JParam? && p.tree.typedTree) then Err(AnyArrayUntyped)
          else
            (match AttributedArray(a, p.tree.typ)
             case Ok(arr) => Ok(AnyArrayText(a, i, arr))
             case Err(f) => Err(f))
        else if name == "any" then
          (match AnyName(a, p, params)
           case Err(f) => Err(f)
           case Ok(fqn) => if p.JParam? then Ok(AnyText(i, fqn)) else Err(NotATree))
        else Err(InvalidMatcher)
  }

  /** The parameters after the callback: an `any` parameter loses its prefix, nothing else changes. */
  function ParametersAfter(a: seq<Desc>, ps: seq<Param>, i: nat, key: Key): (r: seq<Param>)
    requires Acyclic(a) && AllParamsBelow(ps, |a|)
    ensures |r| == |ps| && AllParamsBelow(r, |a|)
  {
    if key.Matcher? && key.name == "any" && PlaceholderText(a, ps, i, key).Ok? then
      ps[i := JParam(ps[i].tree.(prefix := EmptySpace))]
    else ps
  }

  /** Placeholders that can be read back carry the marker for their own parameter index. */
  lemma MarkedPlaceholders(a: seq<Desc>, ps: seq<Param>, i: nat, key: Key)
    requires Acyclic(a) && AllParamsBelow(ps, |a|)
    requires PlaceholderText(a, ps, i, key).Ok?
    requires key.Matcher?
    ensures Open(i) <= PlaceholderText(a, ps, i, key).value
  {
  }

  /** The failures a placeholder can meet, each with its cause. */
  lemma PlaceholderFailures(a: seq<Desc>, ps: seq<Param>, i: nat, key: Key)
    requires Acyclic(a) && AllParamsBelow(ps, |a|)
    ensures i >= |ps| ==> PlaceholderText(a, ps, i, key) == Err(IndexOutOfBounds)
    ensures i < |ps| && key.Matcher? && key.name != "any" && key.name != "anyArray" ==>
              PlaceholderText(a, ps, i, key) == Err(InvalidMatcher)
    ensures i < |ps| && key.Matcher? && key.name == "anyArray" && !(ps[i].JParam? && ps[i].tree.typedTree) ==>
              PlaceholderText(a, ps, i, key) == Err(AnyArrayUntyped)
    ensures i < |ps| && key.Matcher? && key.name == "any" && |key.params| == 1 && !ps[i].JParam? ==>
              PlaceholderText(a, ps, i, key) == Err(NotATree)
  {
  }

  // ---------------------------------------------------------------------------
  // The substitution loop

  /** The code as PropertyPlaceholderHelper splits it: literal text and placeholders with their keys. */
  datatype Segment = Literal(text: string) | Placeholder(key: Key)

  function PlaceholderCount(segs: seq<Segment>): (r: nat)
    ensures r <= |segs|
  {
    if segs == [] then 0
    else PlaceholderCount(segs[..|segs| - 1]) + (if segs[|segs| - 1].Placeholder? then 1 else 0)
  }

  /** The text of a split without placeholders: its literals joined. */
  function LiteralText(segs: seq<Segment>): string
  {
    if segs == [] then ""
    else LiteralText(segs[..|segs| - 1]) + (if segs[|segs| - 1].Literal? then segs[|segs| - 1].text else "")
  }

  /** Where a pass stands after some segments: the text so far, the parameters, and the next index. */
  datatype Pass = Pass(text: string, params: seq<Param>, next: nat)

  /**
   * One replacePlaceholders pass over a split, as a value: the segments in
   * order, each literal copied and each placeholder replaced by the
   * callback's answer for the next index, with the parameters as the
   * callback leaves them; or the first exception the callback throws.
   */
  function PassText(a: seq<Desc>, ps: seq<Param>, start: nat, segs: seq<Segment>): (r: Result<Pass>)
    requires Acyclic(a) && AllParamsBelow(ps, |a|)
    ensures r.Ok? ==> |r.value.params| == |ps| && AllParamsBelow(r.value.params, |a|)
    ensures r.Ok? ==> r.value.next == start + PlaceholderCount(segs)
    decreases |segs|
  {
    if segs == [] then Ok(Pass("", ps, start))
    else
      match PassText(a, ps, start, segs[..|segs| - 1])
      case Err(f) => Err(f)
      case Ok(p) =>
        var last := segs[|segs| - 1];
        if last.Literal? then Ok(Pass(p.text + last.text, p.params, p.next))
        else
          match PlaceholderText(a, p.params, p.next, last.key)
          case Err(f) => Err(f)
          case Ok(t) => Ok(Pass(p.text + t, ParametersAfter(a, p.params, p.next, last.key), p.next + 1))
  }

  /** A pass over literals only copies them and leaves the parameters and the index alone. */
  lemma {:induction false} PassLiteral(a: seq<Desc>, ps: seq<Param>, start: nat, segs: seq<Segment>)
    requires Acyclic(a) && AllParamsBelow(ps, |a|)
    requires PlaceholderCount(segs) == 0
    ensures PassText(a, ps, start, segs) == Ok(Pass(LiteralText(segs), ps, start))
    decreases |segs|
  {
    if segs != [] {
      PassLiteral(a, ps, start, segs[..|segs| - 1]);
    }
  }

  /** A successful pass consumed no more parameters than there are: each placeholder had its own. */
  lemma {:induction false} PassInBounds(a: seq<Desc>, ps: seq<Param>, start: nat, segs: seq<Segment>)
    requires Acyclic(a) && AllParamsBelow(ps, |a|)
    requires PassText(a, ps, start, segs).Ok?
    ensures PlaceholderCount(segs) > 0 ==> start + PlaceholderCount(segs) <= |ps|
    decreases |segs|
  {
    if segs != [] {
      var init := segs[..|segs| - 1];
      PassInBounds(a, ps, start, init);
      var p := PassText(a, ps, start, init).value;
      assert p.next == start + PlaceholderCount(init) && |p.params| == |ps|;
      assert PlaceholderCount(segs) == PlaceholderCount(init) + (if segs[|segs| - 1].Placeholder? then 1 else 0);
      if segs[|segs| - 1].Placeholder? {
        PlaceholderFailures(a, p.params, p.next, segs[|segs| - 1].key);
        assert PlaceholderText(a, p.params, p.next, segs[|segs| - 1].key).Ok?;
      }
    }
  }

  /** An exception in the first `n` segments is the exception of the whole pass. */
  lemma {:induction false} PassErrStops(a: seq<Desc>, ps: seq<Param>, start: nat, segs: seq<Segment>, n: nat)
    requires Acyclic(a) && AllParamsBelow(ps, |a|)
    requires n <= |segs| && PassText(a, ps, start, segs[..n]).Err?
    ensures PassText(a, ps, start, segs) == PassText(a, ps, start, segs[..n])
    decreases |segs|
  {
    if n == |segs| {
      assert segs[..n] == segs;
    } else {
      var init := segs[..|segs| - 1];
      assert init[..n] == segs[..n];
      PassErrStops(a, ps, start, init, n);
    }
  }

  class Substitutions {
    const code: string
    const types: seq<Desc>
    /** The caller's parameter array, which `any` placeholders overwrite in place. */
    const parameters: array<Param>
    /** The AtomicInteger shared by every round: the index of the next parameter. */
    var index: nat

    ghost predicate Valid()
      reads this, parameters
    {
      WellFormed(types) && AllParamsBelow(parameters[..], |types|)
    }

    constructor(code: string, types: seq<Desc>, parameters: array<Param>)
      requires WellFormed(types) && AllParamsBelow(parameters[..], |types|)
      ensures Valid()
      ensures this.code == code && this.types == types && this.parameters == parameters && index == 0
    {
      this.code := code;
      this.types := types;
      this.parameters := parameters;
      index := 0;
    }

    /** The placeholder callback: takes the next index, then answers for that parameter. */
    method Resolve(key: Key) returns (r: Result<string>)
      requires Valid()
      modifies this, parameters
      ensures Valid()
      ensures index == old(index) + 1
      ensures r == PlaceholderText(types, old(parameters[..]), old(index), key)
      ensures parameters[..] == ParametersAfter(types, old(parameters[..]), old(index), key)
    {
      var i := index;
      index := index + 1;
      r := PlaceholderText(types, parameters[..], i, key);
      if i < parameters.Length && key.Matcher? && key.name == "any" && r.Ok? {
        parameters[i] := JParam(parameters[i].tree.(prefix := EmptySpace));
      }
    }

    /** One replacePlaceholders pass: each placeholder in turn replaced by the callback's answer. */
    method ReplacePlaceholders(segs: seq<Segment>) returns (r: Result<string>)
      requires Valid()
      modifies this, parameters
      ensures Valid() && index >= old(index)
      ensures r.Ok? ==> index == old(index) + PlaceholderCount(segs)
      ensures PlaceholderCount(segs) == 0 ==> r == Ok(LiteralText(segs)) && unchanged(this, parameters)
      ensures r.Ok? <==> PassText(types, old(parameters[..]), old(index), segs).Ok?
      ensures r.Ok? ==> PassText(types, old(parameters[..]), old(index), segs) == Ok(Pass(r.value, parameters[..], index))
      ensures r.Err? ==> PassText(types, old(parameters[..]), old(index), segs) == Err(r.failure)
    {
      var out := "";
      var k := 0;
      while k < |segs|
        invariant 0 <= k <= |segs| && Valid()
        invariant index == old(index) + PlaceholderCount(segs[..k])
        invariant PlaceholderCount(segs) == 0 ==> out == LiteralText(segs[..k]) && unchanged(this, parameters)
        invariant PassText(types, old(parameters[..]), old(index), segs[..k]) == Ok(Pass(out, parameters[..], index))
      {
        SegmentStep(segs, k);
        assert segs[..k + 1][..k] == segs[..k];
        if segs[k].Placeholder? {
          var s := Resolve(segs[k].key);
          if s.Err? {
            PassErrStops(types, old(parameters[..]), old(index), segs, k + 1);
            return Err(s.failure);
          }
          out := out + s.value;
        } else {
          out := out + segs[k].text;
        }
        k := k + 1;
      }
      assert segs[..k] == segs;
      return Ok(out);
    }

    /**
     * substitute: passes over the code until one leaves it unchanged.  The
     * source loops without bound; here at most `maxRounds` passes are made
     * and a code still changing after them is reported as Unstable.
     */
    method Substitute(scan: string -> seq<Segment>, maxRounds: nat)
      returns (r: Result<string>, ghost lastStart: nat, ghost lastParams: seq<Param>)
      requires Valid()
      modifies this, parameters
      ensures Valid()
      ensures index >= old(index)
      ensures r.Ok? ==> maxRounds >= 1
      ensures maxRounds >= 1 && PlaceholderCount(scan(code)) == 0 && LiteralText(scan(code)) == code ==>
                r == Ok(code) && unchanged(this, parameters)
      // The fixpoint: the last pass, from where the one before it left off, gave back its own input.
      ensures r.Ok? ==> old(index) <= lastStart && AllParamsBelow(lastParams, |types|)
      ensures r.Ok? ==> PassText(types, lastParams, lastStart, scan(r.value)) == Ok(Pass(r.value, parameters[..], index))
    {
      var substituted := code;
      var rounds := 0;
      var stable := false;
      lastStart, lastParams := index, parameters[..];
      while !stable && rounds < maxRounds
        invariant Valid() && index >= old(index)
        invariant rounds <= maxRounds
        invariant stable ==> rounds >= 1
        invariant PlaceholderCount(scan(code)) == 0 && LiteralText(scan(code)) == code ==>
                    substituted == code && unchanged(this, parameters) && (rounds >= 1 ==> stable)
        invariant stable ==> old(index) <= lastStart && AllParamsBelow(lastParams, |types|)
        invariant stable ==> PassText(types, lastParams, lastStart, scan(substituted)) == Ok(Pass(substituted, parameters[..], index))
        decreases maxRounds - rounds, if stable then 0 else 1
      {
        var previous := substituted;
        lastStart, lastParams := index, parameters[..];
        var pass := ReplacePlaceholders(scan(substituted));
        if pass.Err? {
          r := Err(pass.failure);
          return;
        }
        substituted := pass.value;
        rounds := rounds + 1;
        stable := previous == substituted;
      }
      if !stable {
        r := Err(Unstable);
        return;
      }
      r := Ok(substituted);
    }
  }

  /** Extending a prefix of the split by one segment: how the count and the literal text grow. */
  lemma SegmentStep(segs: seq<Segment>, k: nat)
    requires k < |segs|
    ensures PlaceholderCount(segs[..k + 1]) == PlaceholderCount(segs[..k]) + (if segs[k].Placeholder? then 1 else 0)
    ensures LiteralText(segs[..k + 1]) == LiteralText(segs[..k]) + (if segs[k].Literal? then segs[k].text else "")
    ensures segs[k].Placeholder? ==> PlaceholderCount(segs) >= 1
  {
    assert segs[..k + 1][..k] == segs[..k];
    PrefixCount(segs, k + 1);
  }

  lemma {:induction false} PrefixCount(segs: seq<Segment>, n: nat)
    requires n <= |segs|
    ensures PlaceholderCount(segs[..n]) <= PlaceholderCount(segs)
    decreases |segs| - n
  {
    if n < |segs| {
      PrefixCount(segs, n + 1);
      assert segs[..n + 1][..n] == segs[..n];
    } else {
      assert segs[..n] == segs;
    }
  }

  // ---------------------------------------------------------------------------
  // Unsubstitution

  /**
   * maybeParameter: a tree whose prefix holds a marker comment is replaced
   * by that parameter, which keeps its own comments but takes the tree's
   * whitespace.  An index past the parameters, a parameter that is not a J
   * tree or a marker beyond int range is an exception.
   */
  function MaybeParameter(ps: seq<Param>, j: Tree): (r: Result<Option<Tree>>)
    ensures FirstMarker(j.prefix.comments) == NoIndex ==> r == Ok(None)
    ensures r.Ok? && r.value.Some? ==> r.value.value.prefix.whitespace == j.prefix.whitespace
  {
    match FirstMarker(j.prefix.comments)
    case NoIndex => Ok(None)
    case IndexOverflow => Err(NumberFormat)
    case Index(n) =>
      if n >= |ps| then Err(IndexOutOfBounds)
      else if !ps[n].JParam? then Err(NotATree)
      else
        var t := ps[n].tree;
        Ok(Some(t.(prefix := t.prefix.(whitespace := j.prefix.whitespace))))
  }

  /** unsubstitute: with no parameters there is nothing to put back and the tree is returned as it is. */
  function Unsubstitute(ps: seq<Param>, j: Tree, visit: Tree -> Tree): (r: Tree)
    ensures |ps| == 0 ==> r == j
  {
    if |ps| == 0 then j else visit(j)
  }

  /**
   * A parameter written out behind its marker comment comes back in place:
   * a tree whose prefix starts with the marker of parameter `i` (after any
   * comments that are no markers) is replaced by parameter `i`.
   */
  lemma MarkerBringsParameterBack(ps: seq<Param>, i: nat, j: Tree, before: seq<Comment>, suffix: string, after: seq<Comment>)
    requires i < |ps| && i <= MaxInt && ps[i].JParam?
    requires forall k :: 0 <= k < |before| ==> !IsMarkerComment(before[k])
    requires j.prefix.comments == before + [TextComment(Marker(i), true, suffix)] + after
    ensures MaybeParameter(ps, j) ==
              Ok(Some(ps[i].tree.(prefix := ps[i].tree.prefix.(whitespace := j.prefix.whitespace))))
  {
    MarkerRoundTrip(i);
    FirstMarkerSkips(before, TextComment(Marker(i), true, suffix), after);
  }

  /** The block placeholder is the marker comment followed by an empty block. */
  lemma BlockPlaceholder(t: Tree, i: nat)
    requires t.kind == BlockTree
    ensures SubstituteSingle(JParam(t), i) == Ok("/*" + Marker(i) + "*/{}")
    ensures SubstituteSingle(RightPaddedParam(JParam(t)), i) == SubstituteSingle(JParam(t), i)
  {
  }
}
