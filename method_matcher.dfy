/**
 * MethodMatcher: an AspectJ-style method pattern such as
 * `java.util.Collections unmodifiable*(..)` becomes three regular
 * expressions (target type, method name, argument list), which are then
 * tested against method types, declarations, invocations and constructor
 * calls. The pattern grammar's parser is not modelled: a matcher is built
 * from the parsed tokens. Regular-expression matching is the parameter
 * `rx(pattern, text)`, standing for Pattern.compile(pattern).matcher(text).matches().
 */
module MethodMatching {
  import opened Wrappers
  import opened Strings
  import opened JavaTypes

  // ---------------------------------------------------------------------------
  // AspectjUtils.aspectjNameToPattern

  /** The end of the run of non-dot characters starting at `i`. */
  function DotRunEnd(s: string, i: nat): (e: nat)
    requires i <= |s|
    ensures i <= e <= |s|
    ensures forall k :: i <= k < e ==> s[k] != '.'
    ensures e < |s| ==> s[e] == '.'
    decreases |s| - i
  {
    if i == |s| || s[i] == '.' then i else DotRunEnd(s, i + 1)
  }

  /**
   * replaceAll("([^.])*\\.([^.])*", "$1\\.$2"). Every match starts where the
   * previous one ended: the non-dot run before the next dot, the dot, and the
   * non-dot run after it. A repeated group captures only its last character,
   * a group that matched nothing contributes nothing, and `\.` in a
   * replacement string is a plain dot.
   */
  function ReplaceDotRuns(s: string): (r: string)
    ensures '.' !in s ==> r == s
    decreases |s|
  {
    var d := IndexOf(s, '.');
    if d < 0 then s
    else
      var e := DotRunEnd(s, d + 1);
      (if d > 0 then [s[d - 1]] else []) + "." + (if e > d + 1 then [s[e - 1]] else []) + ReplaceDotRuns(s[e..])
  }

  /** One token of a name pattern rewritten into regular-expression syntax. */
  function AspectjNameToPattern(name: string): string
  {
    Wildcards(ReplaceDotRuns(EscapeBrackets(name)))
  }

  /** The first two steps: `[` and `]` escaped with a backslash. */
  function EscapeBrackets(name: string): string
  {
    ReplaceLiteral(ReplaceLiteral(name, "[", "\\["), "]", "\\]")
  }

  /** The last two steps: `*` and `..` rewritten into their regular expressions. */
  function Wildcards(s: string): string
  {
    ReplaceLiteral(ReplaceLiteral(s, "*", "[^.]*"), "..", "\\.(.+\\.)?")
  }

  /** Text without dots or stars passes the last two steps unchanged. */
  lemma NoWildcards(s: string)
    requires '.' !in s && '*' !in s
    ensures Wildcards(s) == s
  {
    AbsentNoOccurrence(s, "*");
    AbsentNoOccurrence(s, "..");
  }

  /** "*" => [^.]*: every dot the star rewrite produces sits right before a ']'. */
  lemma {:induction false} StarRewriteDots(s: string)
    requires '.' !in s
    ensures forall i :: 0 <= i < |ReplaceLiteral(s, "*", "[^.]*")| && ReplaceLiteral(s, "*", "[^.]*")[i] == '.' ==>
      i + 1 < |ReplaceLiteral(s, "*", "[^.]*")| && ReplaceLiteral(s, "*", "[^.]*")[i + 1] == ']'
    decreases |s|
  {
    if |s| >= 1 {
      var rest := ReplaceLiteral(s[1..], "*", "[^.]*");
      StarRewriteDots(s[1..]);
      if s[..1] == "*" {
        assert ReplaceLiteral(s, "*", "[^.]*") == "[^.]*" + rest;
      } else {
        assert ReplaceLiteral(s, "*", "[^.]*") == [s[0]] + rest;
      }
    }
  }

  /** The backslash-escaping steps leave a name without brackets alone. */
  lemma NoBracketsEscaped(name: string)
    requires '[' !in name && ']' !in name
    ensures EscapeBrackets(name) == name
  {
    AbsentNoOccurrence(name, "[");
    assert ReplaceLiteral(name, "[", "\\[") == name;
    AbsentNoOccurrence(name, "]");
  }

  /** A star-free rewrite result has no `..` when no dot is followed by another. */
  lemma {:induction false} NoDoubleDot(s: string)
    requires forall i :: 0 <= i < |s| && s[i] == '.' ==> i + 1 < |s| && s[i + 1] == ']'
    ensures ReplaceLiteral(s, "..", "\\.(.+\\.)?") == s
    decreases |s|
  {
    if |s| >= 2 {
      assert s[..2] != ".." by {
        if s[0] == '.' { assert s[1] == ']'; }
      }
      assert forall i :: 0 <= i < |s| - 1 ==> s[1..][i] == s[i + 1];
      NoDoubleDot(s[1..]);
      assert [s[0]] + s[1..] == s;
    }
  }

  /**
   * An identifier token with embedded stars: each star becomes `[^.]*`
   * (any run of characters but the package separator) and nothing else
   * changes; a token with no pattern character is its own pattern.
   */
  lemma SimpleNameToken(name: string)
    requires '.' !in name && '[' !in name && ']' !in name
    ensures AspectjNameToPattern(name) == ReplaceLiteral(name, "*", "[^.]*")
    ensures '*' !in name ==> AspectjNameToPattern(name) == name
  {
    NoBracketsEscaped(name);
    assert ReplaceDotRuns(name) == name;
    StarRewriteDots(name);
    NoDoubleDot(ReplaceLiteral(name, "*", "[^.]*"));
    if '*' !in name {
      AbsentNoOccurrence(name, "*");
    }
  }

  /** The dot-run step leaves a run of dots alone: each dot is a match of its own. */
  lemma DotRunsOfDots()
    ensures ReplaceDotRuns(".") == "."
    ensures ReplaceDotRuns("..") == ".."
  {
    assert ReplaceDotRuns("") == "";
    assert IndexOf(".", '.') == 0 && DotRunEnd(".", 1) == 1 && "."[1..] == "";
    assert IndexOf("..", '.') == 0 && DotRunEnd("..", 1) == 1 && ".."[1..] == ".";
  }

  lemma ReplaceWhole(pat: string, rep: string)
    requires pat != []
    ensures ReplaceLiteral(pat, pat, rep) == rep
  {
    assert pat[..|pat|] == pat && pat[|pat|..] == [];
  }

  /** The subpackage wildcard `..` becomes `\.(.+\.)?`. */
  lemma DotDotToken()
    ensures AspectjNameToPattern("..") == "\\.(.+\\.)?"
  {
    NoBracketsEscaped("..");
    DotRunsOfDots();
    WildcardsDotDot();
  }

  lemma WildcardsDotDot()
    ensures Wildcards("..") == "\\.(.+\\.)?"
  {
    AbsentNoOccurrence("..", "*");
    ReplaceWhole("..", "\\.(.+\\.)?");
  }

  /** A lone package separator is left as `.`, which the regular expression reads as any character. */
  lemma DotToken()
    ensures AspectjNameToPattern(".") == "."
  {
    NoBracketsEscaped(".");
    DotRunsOfDots();
    assert Wildcards(".") == "." by {
      AbsentNoOccurrence(".", "*");
      assert ReplaceLiteral(".", "*", "[^.]*") == ".";
    }
  }

  /** Bracket tokens are escaped. */
  lemma OpenBracketToken()
    ensures AspectjNameToPattern("[") == "\\["
  {
    assert EscapeBrackets("[") == "\\[" by {
      ReplaceWhole("[", "\\[");
      AbsentNoOccurrence("\\[", "]");
    }
    assert ReplaceDotRuns("\\[") == "\\[";
    NoWildcards("\\[");
  }

  lemma CloseBracketToken()
    ensures AspectjNameToPattern("]") == "\\]"
  {
    assert EscapeBrackets("]") == "\\]" by {
      AbsentNoOccurrence("]", "[");
      ReplaceWhole("]", "\\]");
    }
    assert ReplaceDotRuns("\\]") == "\\]";
    NoWildcards("\\]");
  }

  /** The tokens of a name rewritten one by one and concatenated. */
  function NamePattern(tokens: seq<string>): (r: string)
    ensures |tokens| == 1 ==> r == AspectjNameToPattern(tokens[0])
  {
    Join(seq(|tokens|, k requires 0 <= k < |tokens| => AspectjNameToPattern(tokens[k])), "")
  }

  // ---------------------------------------------------------------------------
  // TypeVisitor.visitClassNameOrInterface

  /**
   * A class name without a dot is looked up in java.lang, ignoring a trailing
   * escaped array bracket; `javaLang` holds the simple names Class.forName
   * finds there.
   */
  function QualifyJavaLang(className: string, javaLang: set<string>): (r: string)
    ensures '.' in className ==> r == className
    ensures r == className || r == "java.lang." + className
  {
    if '.' !in className then
      var arrInit := LastOccurrence(className, "\\[");
      var simple := if arrInit == -1 then className else className[..arrInit];
      if simple in javaLang then "java.lang." + className else className
    else className
  }

  function ClassNameOrInterface(children: seq<string>, javaLang: set<string>): (r: string)
    ensures r == NamePattern(children) || r == "java.lang." + NamePattern(children)
  {
    QualifyJavaLang(NamePattern(children), javaLang)
  }

  /** An array of a java.lang class is qualified by the class name in front of the escaped brackets. */
  lemma JavaLangArray(name: string, javaLang: set<string>)
    requires '.' !in name && '\\' !in name && name in javaLang
    ensures QualifyJavaLang(name + "\\[\\]", javaLang) == "java.lang." + name + "\\[\\]"
  {
    var s := name + "\\[\\]";
    assert '.' !in s by {
      forall k | 0 <= k < |s| ensures s[k] != '.' {
        if k < |name| { assert s[k] == name[k]; }
      }
    }
    assert OccursAt(s, "\\[", |name|) by {
      assert s[|name|..|name| + 2] == "\\[";
    }
    assert !OccursAt(s, "\\[", |name| + 1) by {
      assert s[|name| + 1] == '[';
    }
    assert !OccursAt(s, "\\[", |name| + 2) by {
      assert s[|name| + 3] == ']';
    }
    var r := LastOccurrence(s, "\\[");
    assert r == |name|;
    assert s[..r] == name;
  }

  // ---------------------------------------------------------------------------
  // FormalParameterVisitor

  /** Argument: the `..` wildcard, or one formal type whose base pattern the TypeVisitor gave. */
  datatype Argument = DotDot | FormalType(baseType: string, variableArgs: bool)

  const DotDotRegex: string := "([^,]+,)*([^,]+)"
  const VarargsSuffix: string := "\\[\\]"

  function Regex(arg: Argument): string
  {
    match arg
    case DotDot => DotDotRegex
    case FormalType(b, v) => b + (if v then VarargsSuffix else "")
  }

  /** The regular expression the i-th argument contributes, with the separating comma it carries. */
  function Piece(args: seq<Argument>, i: nat): string
    requires i < |args|
  {
    if args[i].DotDot? then
      if |args| == 1 then "(" + Regex(args[i]) + ")?"
      else if i > 0 then "(," + Regex(args[i]) + ")?"
      else "(" + Regex(args[i]) + ",)?"
    else if i > 0 && !args[i - 1].DotDot? then "," + Regex(args[i])
    else Regex(args[i])
  }

  function Pieces(args: seq<Argument>): (r: seq<string>)
    ensures |r| == |args|
  {
    seq(|args|, i requires 0 <= i < |args| => Piece(args, i))
  }

  /** visitFormalParametersPattern's result for the collected arguments. */
  function ArgumentPattern(args: seq<Argument>): string
  {
    ReplaceLiteral(Join(Pieces(args), ""), "...", VarargsSuffix)
  }

  /** The tokens the parser hands the visitor, in tree order. */
  datatype ParameterToken = DotDotToken | FormalTypeToken(baseType: string) | Terminal(text: string)

  /** A `...` terminal casts the last collected argument to a formal type. */
  predicate CanVisit(args: seq<Argument>, t: ParameterToken)
  {
    t.Terminal? && t.text == "..." ==> |args| > 0 && args[|args| - 1].FormalType?
  }

  function Step(args: seq<Argument>, t: ParameterToken): (r: seq<Argument>)
    requires CanVisit(args, t)
  {
    match t
    case DotDotToken => args + [DotDot]
    case FormalTypeToken(b) => args + [FormalType(b, false)]
    case Terminal(text) =>
      if text == "..." then args[..|args| - 1] + [args[|args| - 1].(variableArgs := true)] else args
  }

  predicate Replayable(args: seq<Argument>, tokens: seq<ParameterToken>)
    decreases |tokens|
  {
    tokens == [] || (CanVisit(args, tokens[0]) && Replayable(Step(args, tokens[0]), tokens[1..]))
  }

  function Replay(args: seq<Argument>, tokens: seq<ParameterToken>): seq<Argument>
    requires Replayable(args, tokens)
    decreases |tokens|
  {
    if tokens == [] then args else Replay(Step(args, tokens[0]), tokens[1..])
  }

  class FormalParameterVisitor {
    var arguments: seq<Argument>

    constructor ()
      ensures arguments == []
    {
      arguments := [];
    }

    /** visitTerminal: `...` makes the preceding formal type variable-arity. */
    method VisitTerminal(text: string)
      requires CanVisit(arguments, Terminal(text))
      modifies this
      ensures arguments == Step(old(arguments), Terminal(text))
      ensures |arguments| == |old(arguments)|
      ensures text == "..." ==>
        arguments[|arguments| - 1] == FormalType(old(arguments)[|arguments| - 1].baseType, true)
        && arguments[..|arguments| - 1] == old(arguments)[..|arguments| - 1]
    {
      if text == "..." {
        var last := arguments[|arguments| - 1];
        arguments := arguments[..|arguments| - 1] + [last.(variableArgs := true)];
      }
    }

    method VisitDotDot()
      modifies this
      ensures arguments == old(arguments) + [DotDot]
    {
      arguments := arguments + [DotDot];
    }

    method VisitFormalTypePattern(baseType: string)
      modifies this
      ensures arguments == old(arguments) + [FormalType(baseType, false)]
    {
      arguments := arguments + [FormalType(baseType, false)];
    }

    /** super.visitFormalParametersPattern: the children visited in tree order. */
    method VisitChildren(tokens: seq<ParameterToken>)
      requires Replayable(arguments, tokens)
      modifies this
      ensures arguments == Replay(old(arguments), tokens)
    {
      var i := 0;
      while i < |tokens|
        invariant 0 <= i <= |tokens|
        decreases |tokens| - i
        invariant Replayable(arguments, tokens[i..])
        invariant Replay(arguments, tokens[i..]) == Replay(old(arguments), tokens)
      {
        assert tokens[i..][0] == tokens[i] && tokens[i..][1..] == tokens[i + 1..];
        match tokens[i] {
          case DotDotToken => VisitDotDot();
          case FormalTypeToken(b) => VisitFormalTypePattern(b);
          case Terminal(text) => VisitTerminal(text);
        }
        i := i + 1;
      }
      assert tokens[i..] == [];
    }

    /** Visits the children, then joins the per-argument expressions. */
    method VisitFormalParametersPattern(tokens: seq<ParameterToken>) returns (pattern: string)
      requires Replayable(arguments, tokens)
      modifies this
      ensures arguments == Replay(old(arguments), tokens)
      ensures pattern == ArgumentPattern(arguments)
    {
      VisitChildren(tokens);
      var argumentPatterns: seq<string> := [];
      var j := 0;
      while j < |arguments|
        invariant 0 <= j <= |arguments|
        invariant |argumentPatterns| == j
        invariant forall k :: 0 <= k < j ==> argumentPatterns[k] == Piece(arguments, k)
      {
        var argument := arguments[j];
        if argument.DotDot? {
          if |arguments| == 1 {
            argumentPatterns := argumentPatterns + ["(" + Regex(argument) + ")?"];
          } else if j > 0 {
            argumentPatterns := argumentPatterns + ["(," + Regex(argument) + ")?"];
          } else {
            argumentPatterns := argumentPatterns + ["(" + Regex(argument) + ",)?"];
          }
        } else if j > 0 && !arguments[j - 1].DotDot? {
          argumentPatterns := argumentPatterns + ["," + Regex(argument)];
        } else {
          argumentPatterns := argumentPatterns + [Regex(argument)];
        }
        j := j + 1;
      }
      assert argumentPatterns == Pieces(arguments);
      pattern := ReplaceLiteral(Join(argumentPatterns, ""), "...", VarargsSuffix);
    }
  }

  // What the assembled expression is, by the shape of the argument list

  predicate AllFormal(args: seq<Argument>) { forall k :: 0 <= k < |args| ==> args[k].FormalType? }

  function Regexes(args: seq<Argument>): (r: seq<string>)
    ensures |r| == |args|
  {
    seq(|args|, k requires 0 <= k < |args| => Regex(args[k]))
  }

  /** Each formal type's expression, with a comma in front of all but the first. */
  function CommaPieces(args: seq<Argument>): (r: seq<string>)
    ensures |r| == |args|
  {
    seq(|args|, k requires 0 <= k < |args| => (if k == 0 then "" else ",") + Regex(args[k]))
  }

  lemma CommaPiecesSnoc(args: seq<Argument>)
    requires |args| > 1
    ensures CommaPieces(args) == CommaPieces(args[..|args| - 1]) + ["," + Regex(args[|args| - 1])]
  {
    var init := args[..|args| - 1];
    assert forall k :: 0 <= k < |init| ==> init[k] == args[k];
  }

  lemma RegexesSnoc(args: seq<Argument>)
    requires |args| > 0
    ensures Regexes(args) == Regexes(args[..|args| - 1]) + [Regex(args[|args| - 1])]
  {
    var init := args[..|args| - 1];
    assert forall k :: 0 <= k < |init| ==> init[k] == args[k];
  }

  lemma {:induction false} CommaPiecesJoin(args: seq<Argument>)
    requires |args| >= 1
    ensures Join(CommaPieces(args), "") == Join(Regexes(args), ",")
    decreases |args|
  {
    if |args| > 1 {
      var init := args[..|args| - 1];
      var last := args[|args| - 1];
      CommaPiecesJoin(init);
      CommaPiecesSnoc(args);
      RegexesSnoc(args);
      JoinAppend(CommaPieces(init), "," + Regex(last), "");
      JoinAppend(Regexes(init), Regex(last), ",");
    }
  }

  /** Formal types alone: their expressions joined by commas. */
  lemma FormalsPattern(args: seq<Argument>)
    requires |args| >= 1 && AllFormal(args)
    ensures Join(Pieces(args), "") == Join(Regexes(args), ",")
  {
    forall k | 0 <= k < |args| ensures Pieces(args)[k] == CommaPieces(args)[k] {
      if k > 0 { assert args[k - 1].FormalType?; }
    }
    assert Pieces(args) == CommaPieces(args);
    CommaPiecesJoin(args);
  }

  /** A lone `..` matches any argument list, the empty one included. */
  lemma LoneDotDotPattern()
    ensures ArgumentPattern([DotDot]) == "(" + DotDotRegex + ")?"
  {
    assert Pieces([DotDot]) == ["(" + DotDotRegex + ")?"];
    AbsentNoOccurrence("(" + DotDotRegex + ")?", "...");
  }

  /** A leading `..` is an optional run of arguments each followed by a comma. */
  lemma LeadingDotDotPattern(args: seq<Argument>)
    requires |args| >= 1 && AllFormal(args)
    ensures Join(Pieces([DotDot] + args), "") == "(" + DotDotRegex + ",)?" + Join(Regexes(args), ",")
  {
    var all := [DotDot] + args;
    forall k | 0 <= k < |all| ensures Pieces(all)[k] == (["(" + DotDotRegex + ",)?"] + CommaPieces(args))[k] {
      if k > 1 { assert all[k - 1] == args[k - 2]; }
      if k > 0 { assert all[k] == args[k - 1]; }
    }
    assert Pieces(all) == ["(" + DotDotRegex + ",)?"] + CommaPieces(args);
    JoinConcat(["(" + DotDotRegex + ",)?"], CommaPieces(args));
    CommaPiecesJoin(args);
  }

  /** A trailing `..` is an optional run of arguments each preceded by a comma. */
  lemma TrailingDotDotPattern(args: seq<Argument>)
    requires |args| >= 1 && AllFormal(args)
    ensures Join(Pieces(args + [DotDot]), "") == Join(Regexes(args), ",") + "(," + DotDotRegex + ")?"
  {
    var all := args + [DotDot];
    forall k | 0 <= k < |all| ensures Pieces(all)[k] == (CommaPieces(args) + ["(," + DotDotRegex + ")?"])[k] {
      if 0 < k < |args| { assert all[k - 1] == args[k - 1]; }
      if k < |args| { assert all[k] == args[k]; }
    }
    assert Pieces(all) == CommaPieces(args) + ["(," + DotDotRegex + ")?"];
    JoinAppend(CommaPieces(args), "(," + DotDotRegex + ")?", "");
    CommaPiecesJoin(args);
  }

  /** `...` after a formal type turns its expression into the array form, leaving the others alone. */
  lemma VarargsRegex(args: seq<Argument>, t: ParameterToken)
    requires t == Terminal("...") && CanVisit(args, t)
    ensures |Step(args, t)| == |args|
    ensures Regex(Step(args, t)[|args| - 1]) == args[|args| - 1].baseType + VarargsSuffix
    ensures forall k :: 0 <= k < |args| - 1 ==> Step(args, t)[k] == args[k]
  {
  }

  // ---------------------------------------------------------------------------
  // typePattern and methodPattern

  function NullableText(o: Option<string>): string { if o.Some? then o.value else "null" }

  /** typePattern: a primitive's keyword, a class's name, an element's pattern followed by "[]", or null. */
  function TypePattern(a: seq<Desc>, t: Ref): Option<string>
    requires WellFormed(a) && t < |a|
    decreases t
  {
    match a[t]
    case PrimitiveType(p) => Some(Keyword(p))
    case Array(e) => if e.Some? then Some(NullableText(TypePattern(a, e.value)) + "[]") else None
    case MultiCatch(_) => None
    case Variable(_, _, _, _, _) => None
    case Method(_, _, _, _, _, _, _, _) => None
    case _ => Some(FullyQualifiedName(a, t))
  }

  /** Which types have a pattern, and what it is for the non-array ones. */
  lemma TypePatternCases(a: seq<Desc>, t: Ref)
    requires WellFormed(a) && t < |a|
    ensures a[t].PrimitiveType? ==> TypePattern(a, t) == Some(Keyword(a[t].primitive))
    ensures IsFullyQualified(a[t]) ==> TypePattern(a, t) == Some(FullyQualifiedName(a, t))
    ensures a[t].Array? ==> (TypePattern(a, t).Some? <==> a[t].elemType.Some?)
    ensures a[t].MultiCatch? || a[t].Variable? || a[t].Method? ==> TypePattern(a, t).None?
  {
  }

  /** The innermost element type of nested arrays and the number of dimensions above it. */
  function ElementType(a: seq<Desc>, t: Ref): (r: Ref)
    requires WellFormed(a) && t < |a|
    ensures r <= t
    decreases t
  {
    if a[t].Array? && a[t].elemType.Some? then ElementType(a, a[t].elemType.value) else t
  }

  function Dimensions(a: seq<Desc>, t: Ref): nat
    requires WellFormed(a) && t < |a|
    decreases t
  {
    if a[t].Array? && a[t].elemType.Some? then Dimensions(a, a[t].elemType.value) + 1 else 0
  }

  predicate EndsWithBrackets(s: string) { |s| >= 2 && s[|s| - 2..] == "[]" }

  function StripBrackets(s: string): (r: string)
    decreases |s|
  {
    if EndsWithBrackets(s) then StripBrackets(s[..|s| - 2]) else s
  }

  function CountBrackets(s: string): nat
    decreases |s|
  {
    if EndsWithBrackets(s) then CountBrackets(s[..|s| - 2]) + 1 else 0
  }

  /**
   * An array's pattern is its innermost element's pattern with one "[]"
   * per dimension, so both can be read back from it.
   */
  lemma {:induction false} ArrayPatternRoundTrip(a: seq<Desc>, t: Ref)
    requires WellFormed(a) && t < |a|
    requires TypePattern(a, ElementType(a, t)).Some?
    requires !EndsWithBrackets(TypePattern(a, ElementType(a, t)).value)
    ensures TypePattern(a, t).Some?
    ensures StripBrackets(TypePattern(a, t).value) == TypePattern(a, ElementType(a, t)).value
    ensures CountBrackets(TypePattern(a, t).value) == Dimensions(a, t)
    decreases t
  {
    if a[t].Array? && a[t].elemType.Some? {
      var e := a[t].elemType.value;
      ArrayPatternRoundTrip(a, e);
      var s := TypePattern(a, t).value;
      assert s == TypePattern(a, e).value + "[]";
      assert EndsWithBrackets(s) && s[..|s| - 2] == TypePattern(a, e).value;
    }
  }

  /** An array whose element has no pattern still has one, spelled as Java concatenates null. */
  lemma ArrayOfUnpatterned(a: seq<Desc>, t: Ref)
    requires WellFormed(a) && t < |a| && a[t].Array? && a[t].elemType.Some?
    requires TypePattern(a, a[t].elemType.value).None?
    ensures TypePattern(a, t) == Some("null[]")
  {
    assert TypePattern(a, t) == Some(NullableText(TypePattern(a, a[t].elemType.value)) + "[]");
    assert "null" + "[]" == "null[]";
  }

  /** The pattern of one type, as a list of zero or one element. */
  function PatternList(a: seq<Desc>, t: Ref): seq<string>
    requires WellFormed(a) && t < |a|
  {
    var p := TypePattern(a, t);
    if p.Some? then [p.value] else []
  }

  /** The non-null type patterns of `ts`, in order. */
  function TypePatterns(a: seq<Desc>, ts: seq<Ref>): (r: seq<string>)
    requires WellFormed(a) && AllBelow(ts, |a|)
    ensures |r| <= |ts|
    decreases |ts|
  {
    if ts == [] then [] else TypePatterns(a, ts[..|ts| - 1]) + PatternList(a, ts[|ts| - 1])
  }

  /** When every parameter type has a pattern, the list holds exactly those patterns. */
  lemma {:induction false} TypePatternsAllPresent(a: seq<Desc>, ts: seq<Ref>)
    requires WellFormed(a) && AllBelow(ts, |a|)
    requires forall k :: 0 <= k < |ts| ==> TypePattern(a, ts[k]).Some?
    ensures |TypePatterns(a, ts)| == |ts|
    ensures forall k :: 0 <= k < |ts| ==> TypePatterns(a, ts)[k] == TypePattern(a, ts[k]).value
    decreases |ts|
  {
    if ts != [] {
      var init := ts[..|ts| - 1];
      var last := ts[|ts| - 1];
      assert forall k :: 0 <= k < |init| ==> init[k] == ts[k];
      TypePatternsAllPresent(a, init);
      assert TypePattern(a, last).Some?;
      TypePatternsSnoc(a, ts, TypePattern(a, last).value);
    }
  }

  lemma TypePatternsSnoc(a: seq<Desc>, ts: seq<Ref>, p: string)
    requires WellFormed(a) && AllBelow(ts, |a|) && ts != [] && TypePattern(a, ts[|ts| - 1]) == Some(p)
    ensures TypePatterns(a, ts) == TypePatterns(a, ts[..|ts| - 1]) + [p]
  {
  }

  /** The argument list the matchers compare with the argument pattern. */
  function ParameterList(a: seq<Desc>, ts: seq<Ref>): string
    requires WellFormed(a) && AllBelow(ts, |a|)
  {
    Join(TypePatterns(a, ts), ",")
  }

  function SignatureText(a: seq<Desc>, s: Option<Signature>): string
    requires WellFormed(a) && SigBelow(s, |a|)
  {
    if s.None? then "" else ParameterList(a, s.value.paramTypes)
  }

  /** The references of a well-formed arena's method point inside the arena. */
  lemma MethodRefs(a: seq<Desc>, m: Ref)
    requires WellFormed(a) && m < |a| && a[m].Method?
    ensures IsFQ(a, a[m].declaringType)
    ensures SigBelow(a[m].genericSignature, |a|) && SigBelow(a[m].resolvedSignature, |a|)
  {
    assert Typed(a, a[m]) && Below(a[m], m);
  }

  /** The StringJoiner loop of methodPattern: each parameter type's pattern, when it has one. */
  method JoinPatterns(a: seq<Desc>, ps: seq<Ref>) returns (joiner: seq<string>)
    requires WellFormed(a) && AllBelow(ps, |a|)
    ensures joiner == TypePatterns(a, ps)
  {
    joiner := [];
    var i := 0;
    while i < |ps|
      invariant 0 <= i <= |ps|
      invariant joiner == TypePatterns(a, ps[..i])
    {
      var s := TypePattern(a, ps[i]);
      assert ps[..i + 1][..i] == ps[..i];
      if s.Some? {
        joiner := joiner + [s.value];
      }
      i := i + 1;
    }
    assert ps[..i] == ps;
  }

  /** "<declaring type> <name>(<parameter patterns>)" */
  function MethodPatternText(a: seq<Desc>, m: Ref, simpleName: string): string
    requires WellFormed(a) && m < |a| && a[m].Method?
  {
    MethodRefs(a, m);
    FullyQualifiedName(a, a[m].declaringType) + " " + simpleName + "(" + SignatureText(a, a[m].resolvedSignature) + ")"
  }

  /** methodPattern, collecting the parameter patterns with a StringJoiner. */
  method MethodPattern(a: seq<Desc>, m: Ref, simpleName: string) returns (pattern: string)
    requires WellFormed(a) && m < |a| && a[m].Method?
    ensures pattern == MethodPatternText(a, m, simpleName)
  {
    MethodRefs(a, m);
    var signature := a[m].resolvedSignature;
    var signatureStr: string;
    if signature.None? {
      signatureStr := "";
    } else {
      var joiner := JoinPatterns(a, signature.value.paramTypes);
      signatureStr := Join(joiner, ",");
    }
    pattern := FullyQualifiedName(a, a[m].declaringType) + " " + simpleName + "(" + signatureStr + ")";
  }

  /**
   * The parenthesised part of a method pattern splits back, at its commas,
   * into the patterns of the parameter types that have one.
   */
  lemma SignatureTextSplits(a: seq<Desc>, s: Signature)
    requires WellFormed(a) && SigBelow(Some(s), |a|)
    requires |TypePatterns(a, s.paramTypes)| >= 1
    requires forall k :: 0 <= k < |TypePatterns(a, s.paramTypes)| ==> ',' !in TypePatterns(a, s.paramTypes)[k]
    ensures SplitAll(SignatureText(a, Some(s)), ',') == TypePatterns(a, s.paramTypes)
  {
    SplitJoin(TypePatterns(a, s.paramTypes), ',');
  }

  // ---------------------------------------------------------------------------
  // The matcher

  /** The supertype chain matchesTargetType always walks: a missing supertype stands for OBJECT, and OBJECT ends it. */
  function SupertypeChain(a: seq<Desc>, t: Ref): (r: seq<Ref>)
    requires WellFormed(a) && IsFQ(a, t)
    ensures |r| >= 1 && r[0] == t && r[|r| - 1] == OBJECT
    ensures AllFQ(a, r)
    decreases t
  {
    if t == OBJECT then [t] else [t] + SupertypeChain(a, Next(a, t))
  }

  /** The next type on the chain: the supertype, or OBJECT when there is none. */
  function Next(a: seq<Desc>, t: Ref): (r: Ref)
    requires WellFormed(a) && IsFQ(a, t) && t != OBJECT
    ensures r < t && IsFQ(a, r)
  {
    FQAboveObject(a, t);
    var s := Supertype(a, t);
    if s.Some? then s.value else OBJECT
  }

  /** The non-null elements of a list, in order. */
  function Present(xs: seq<Option<Ref>>, b: nat): (r: seq<Ref>)
    requires forall k :: 0 <= k < |xs| ==> OptBelow(xs[k], b)
    ensures |r| <= |xs| && AllBelow(r, b)
    ensures (forall k :: 0 <= k < |xs| ==> xs[k].Some?) ==> |r| == |xs| && forall k :: 0 <= k < |xs| ==> r[k] == xs[k].value
  {
    if xs == [] then []
    else
      assert OptBelow(xs[0], b);
      var head := if xs[0].Some? then [xs[0].value] else [];
      var rest := Present(xs[1..], b);
      assert forall k :: 0 <= k < |rest| ==> (head + rest)[|head| + k] == rest[k];
      head + rest
  }

  class MethodMatcher {
    const targetTypePattern: string
    const methodNamePattern: string
    const argumentPattern: string
    const matchOverrides: bool

    /**
     * MethodMatcher(signature, matchOverrides), from the parsed signature: the
     * target type's name tokens, the method name's tokens and the
     * formal-parameter tokens.
     */
    constructor (targetType: seq<string>, simpleName: seq<string>, parameters: seq<ParameterToken>,
                 javaLang: set<string>, matchOverrides: bool)
      requires Replayable([], parameters)
      ensures this.matchOverrides == matchOverrides
      ensures targetTypePattern == ClassNameOrInterface(targetType, javaLang)
      ensures methodNamePattern == NamePattern(simpleName)
      ensures argumentPattern == ArgumentPattern(Replay([], parameters))
    {
      this.matchOverrides := matchOverrides;
      targetTypePattern := ClassNameOrInterface(targetType, javaLang);
      methodNamePattern := NamePattern(simpleName);
      var visitor := new FormalParameterVisitor();
      var pattern := visitor.VisitFormalParametersPattern(parameters);
      argumentPattern := pattern;
    }

    /** matchesTargetType: the type, its supertype chain, and with matchOverrides its interfaces. */
    function MatchesTargetType(a: seq<Desc>, t: Option<Ref>, rx: (string, string) -> bool): (r: bool)
      requires WellFormed(a) && OptFQ(a, t)
      ensures t.None? ==> !r
      decreases if t.Some? then t.value + 1 else 0, 0, 0
    {
      if t.None? then false
      else if rx(targetTypePattern, FullyQualifiedName(a, t.value)) then true
      else if t.value != OBJECT && MatchesTargetType(a, Some(Next(a, t.value)), rx) then true
      else if matchOverrides then
        MatchesTargetType(a, Supertype(a, t.value), rx) || AnyInterfaceMatches(a, Interfaces(a, t.value), t.value, rx)
      else false
    }

    function AnyInterfaceMatches(a: seq<Desc>, ifs: seq<Ref>, bound: Ref, rx: (string, string) -> bool): (r: bool)
      requires WellFormed(a) && AllBelow(ifs, bound) && AllFQ(a, ifs)
      ensures r <==> exists k :: 0 <= k < |ifs| && MatchesTargetType(a, Some(ifs[k]), rx)
      decreases bound, 2, |ifs|
    {
      if ifs == [] then false
      else
        assert forall k :: 1 <= k < |ifs| ==> ifs[1..][k - 1] == ifs[k];
        MatchesTargetType(a, Some(ifs[0]), rx) || AnyInterfaceMatches(a, ifs[1..], bound, rx)
    }

    /** A type whose next type on the chain matches matches too. */
    lemma StepMatches(a: seq<Desc>, t: Ref, rx: (string, string) -> bool)
      requires WellFormed(a) && IsFQ(a, t) && t != OBJECT
      requires MatchesTargetType(a, Some(Next(a, t)), rx)
      ensures MatchesTargetType(a, Some(t), rx)
    {
    }

    /** With matchOverrides, a type one of whose own interfaces matches matches too. */
    lemma InterfaceMatches(a: seq<Desc>, t: Ref, i: nat, rx: (string, string) -> bool)
      requires matchOverrides && WellFormed(a) && IsFQ(a, t) && i < |Interfaces(a, t)|
      requires MatchesTargetType(a, Some(Interfaces(a, t)[i]), rx)
      ensures MatchesTargetType(a, Some(t), rx)
    {
      assert AnyInterfaceMatches(a, Interfaces(a, t), t, rx);
    }

    /** A type matches when any type on its supertype chain has a matching name, whatever matchOverrides says. */
    lemma {:induction false} ChainNameMatches(a: seq<Desc>, t: Ref, k: nat, rx: (string, string) -> bool)
      requires WellFormed(a) && IsFQ(a, t)
      requires k < |SupertypeChain(a, t)| && rx(targetTypePattern, FullyQualifiedName(a, SupertypeChain(a, t)[k]))
      ensures MatchesTargetType(a, Some(t), rx)
      decreases t
    {
      if k > 0 {
        assert SupertypeChain(a, t)[k] == SupertypeChain(a, Next(a, t))[k - 1];
        ChainNameMatches(a, Next(a, t), k - 1, rx);
        StepMatches(a, t, rx);
      }
    }

    /** Without matchOverrides only the names on the supertype chain matter: interfaces are never consulted. */
    lemma {:induction false} WithoutOverridesOnlyChain(a: seq<Desc>, t: Ref, rx: (string, string) -> bool)
      requires !matchOverrides && WellFormed(a) && IsFQ(a, t)
      requires MatchesTargetType(a, Some(t), rx)
      ensures exists k :: 0 <= k < |SupertypeChain(a, t)| && rx(targetTypePattern, FullyQualifiedName(a, SupertypeChain(a, t)[k]))
      decreases t
    {
      var chain := SupertypeChain(a, t);
      if !rx(targetTypePattern, FullyQualifiedName(a, t)) {
        var next := Next(a, t);
        WithoutOverridesOnlyChain(a, next, rx);
        var k :| 0 <= k < |SupertypeChain(a, next)| && rx(targetTypePattern, FullyQualifiedName(a, SupertypeChain(a, next)[k]));
        assert chain[k + 1] == SupertypeChain(a, next)[k];
      } else {
        assert chain[0] == t;
      }
    }

    /** With matchOverrides, an interface of any type on the supertype chain that matches makes the type match. */
    lemma {:induction false} OverridesReachInterfaces(a: seq<Desc>, t: Ref, k: nat, i: nat, rx: (string, string) -> bool)
      requires matchOverrides && WellFormed(a) && IsFQ(a, t)
      requires k < |SupertypeChain(a, t)| && i < |Interfaces(a, SupertypeChain(a, t)[k])|
      requires MatchesTargetType(a, Some(Interfaces(a, SupertypeChain(a, t)[k])[i]), rx)
      ensures MatchesTargetType(a, Some(t), rx)
      decreases t
    {
      var chain := SupertypeChain(a, t);
      if k == 0 {
        assert chain[0] == t;
        InterfaceMatches(a, t, i, rx);
      } else {
        var next := Next(a, t);
        assert chain[k] == SupertypeChain(a, next)[k - 1];
        OverridesReachInterfaces(a, next, k - 1, i, rx);
        StepMatches(a, t, rx);
      }
    }

    /** matches(JavaType): false for anything but a method type, and for a method without a generic signature. */
    function MatchesType(a: seq<Desc>, t: Option<Ref>, rx: (string, string) -> bool): (r: bool)
      requires WellFormed(a) && OptBelow(t, |a|)
      ensures t.None? || !a[t.value].Method? ==> !r
      ensures t.Some? && a[t.value].Method? && a[t.value].genericSignature.None? ==> !r
      ensures r ==> t.Some? && a[t.value].Method? && rx(methodNamePattern, a[t.value].name)
    {
      if t.None? || !a[t.value].Method? then false
      else
        var m := a[t.value];
        MethodRefs(a, t.value);
        MatchesTargetType(a, Some(m.declaringType), rx)
        && rx(methodNamePattern, m.name)
        && m.genericSignature.Some?
        && rx(argumentPattern, ParameterList(a, m.genericSignature.value.paramTypes))
    }

    /** matches(J.MethodInvocation): false without a method type or a resolved signature. */
    function MatchesInvocation(a: seq<Desc>, methodType: Option<Ref>, simpleName: string,
                               rx: (string, string) -> bool): (r: bool)
      requires WellFormed(a) && OptBelow(methodType, |a|)
      requires methodType.Some? ==> a[methodType.value].Method?
      ensures methodType.None? ==> !r
      ensures methodType.Some? && a[methodType.value].resolvedSignature.None? ==> !r
      ensures r ==> rx(methodNamePattern, simpleName)
    {
      if methodType.None? then false
      else
        var m := a[methodType.value];
        MethodRefs(a, methodType.value);
        if m.resolvedSignature.None? then false
        else
          MatchesTargetType(a, Some(m.declaringType), rx)
          && rx(methodNamePattern, simpleName)
          && rx(argumentPattern, ParameterList(a, m.resolvedSignature.value.paramTypes))
    }

    /**
     * An invocation called by its type's own name, whose resolved and generic
     * signatures list the same parameter types, matches exactly when its type does.
     */
    lemma InvocationAgreesWithType(a: seq<Desc>, m: Ref, rx: (string, string) -> bool)
      requires WellFormed(a) && m < |a| && a[m].Method?
      requires a[m].genericSignature.Some? && a[m].resolvedSignature.Some?
      requires a[m].genericSignature.value.paramTypes == a[m].resolvedSignature.value.paramTypes
      ensures MatchesInvocation(a, Some(m), a[m].name, rx) == MatchesType(a, Some(m), rx)
    {
      MethodRefs(a, m);
    }

    /**
     * matches(J.MethodDeclaration, J.ClassDeclaration): false when the enclosing
     * class has no type; the target-type test is skipped for the fully wild
     * pattern. `parameterTypes` holds, per parameter, the type the declaration
     * maps it to (or null).
     */
    function MatchesDeclaration(a: seq<Desc>, enclosing: Option<Ref>, simpleName: string,
                                parameterTypes: seq<Option<Ref>>, rx: (string, string) -> bool): (r: bool)
      requires WellFormed(a) && OptFQ(a, enclosing)
      requires forall k :: 0 <= k < |parameterTypes| ==> OptBelow(parameterTypes[k], |a|)
      ensures enclosing.None? ==> !r
      ensures r ==> rx(methodNamePattern, simpleName)
      ensures enclosing.Some? && targetTypePattern == "[^.]*" ==>
        (r <==> rx(methodNamePattern, simpleName) && rx(argumentPattern, ParameterList(a, Present(parameterTypes, |a|))))
    {
      if enclosing.None? then false
      else
        (targetTypePattern == "[^.]*" || MatchesTargetType(a, enclosing, rx))
        && rx(methodNamePattern, simpleName)
        && rx(argumentPattern, ParameterList(a, Present(parameterTypes, |a|)))
    }

    /** matches(J.NewClass): the method-name pattern is tested against "<constructor>". */
    function MatchesNewClass(a: seq<Desc>, classType: Option<Ref>, constructorType: Option<Ref>,
                             rx: (string, string) -> bool): (r: bool)
      requires WellFormed(a) && OptFQ(a, classType) && OptBelow(constructorType, |a|)
      requires constructorType.Some? ==> a[constructorType.value].Method?
      ensures classType.None? || constructorType.None? ==> !r
      ensures constructorType.Some? && a[constructorType.value].resolvedSignature.None? ==> !r
      ensures r ==> rx(methodNamePattern, "<constructor>") && MatchesTargetType(a, classType, rx)
    {
      if classType.None? || constructorType.None? then false
      else
        var c := a[constructorType.value];
        MethodRefs(a, constructorType.value);
        MatchesTargetType(a, classType, rx)
        && rx(methodNamePattern, "<constructor>")
        && c.resolvedSignature.Some?
        && rx(argumentPattern, ParameterList(a, c.resolvedSignature.value.paramTypes))
    }
  }
}
