/**
 * The indentation engine of the tabs-and-indents formatter: column widths of
 * whitespace, shifting whitespace left or right, re-indenting a Space and
 * the comments in it, the per-node indent type and the indent-type decision
 * made for every visited space.
 */
module TabsAndIndents {
  import opened Wrappers
  import opened Strings
  import opened Formatting
  import opened Numbers

  datatype TabsAndIndentsStyle = TabsAndIndentsStyle(
    useTabCharacter: bool, tabSize: int, indentSize: int, continuationIndent: int)

  /**
   * The helpers the visitor calls but whose code is not part of this model:
   * Space.getIndent, StringUtils.commonMargin(null, _) and StringUtils.indent.
   */
  datatype Helpers = Helpers(
    spaceIndent: Space -> string, commonMargin: string -> string, leadingIndent: string -> string)

  // ---------------------------------------------------------------------------
  // Column width

  function CharWidth(st: TabsAndIndentsStyle, c: char): int
  {
    if c == '\t' then st.tabSize else 1
  }

  /** The characters after the last line break ('\n' or '\r'). */
  function LastLine(s: string): string
    decreases |s|
  {
    if s == [] then []
    else if IsLineBreak(s[|s| - 1]) then []
    else LastLine(s[..|s| - 1]) + [s[|s| - 1]]
  }

  /** The last line is the suffix of the text after its last line break, or all of it. */
  lemma {:induction false} LastLineShape(s: string)
    ensures var r := LastLine(s);
      |r| <= |s| && r == s[|s| - |r|..]
      && (forall k :: 0 <= k < |r| ==> !IsLineBreak(r[k]))
      && (|r| < |s| ==> IsLineBreak(s[|s| - |r| - 1]))
    decreases |s|
  {
    if s != [] && !IsLineBreak(s[|s| - 1]) {
      LastLineShape(s[..|s| - 1]);
    }
  }

  /** The columns `t` occupies when a tab counts as tabSize and every other character as one. */
  function Columns(st: TabsAndIndentsStyle, t: string): int
    decreases |t|
  {
    if t == [] then 0 else Columns(st, t[..|t| - 1]) + CharWidth(st, t[|t| - 1])
  }

  /** The column the text ends at: the width of its last line. */
  function Width(st: TabsAndIndentsStyle, s: string): int
  {
    Columns(st, LastLine(s))
  }

  lemma WidthSnoc(st: TabsAndIndentsStyle, s: string, c: char)
    ensures Width(st, s + [c]) == if IsLineBreak(c) then 0 else Width(st, s) + CharWidth(st, c)
  {
    assert (s + [c])[..|s|] == s;
    if !IsLineBreak(c) {
      var l := LastLine(s) + [c];
      assert l[..|l| - 1] == LastLine(s);
    }
  }

  lemma {:induction false} ColumnsAppend(st: TabsAndIndentsStyle, a: string, b: string)
    ensures Columns(st, a + b) == Columns(st, a) + Columns(st, b)
    decreases |b|
  {
    if b == [] {
      assert a + b == a;
    } else {
      var b' := b[..|b| - 1];
      assert (a + b)[..|a + b| - 1] == a + b';
      ColumnsAppend(st, a, b');
    }
  }

  /** Without tabs the width of a line is its length. */
  lemma {:induction false} ColumnsNoTabs(st: TabsAndIndentsStyle, t: string)
    requires forall k :: 0 <= k < |t| ==> t[k] != '\t'
    ensures Columns(st, t) == |t|
    decreases |t|
  {
    if t != [] {
      ColumnsNoTabs(st, t[..|t| - 1]);
    }
  }

  lemma {:induction false} ColumnsSpaces(st: TabsAndIndentsStyle, n: nat)
    ensures Columns(st, Repeat(' ', n)) == n
  {
    if n > 0 {
      assert Repeat(' ', n)[..n - 1] == Repeat(' ', n - 1);
      ColumnsSpaces(st, n - 1);
    }
  }

  lemma {:induction false} ColumnsTabs(st: TabsAndIndentsStyle, n: nat)
    ensures Columns(st, Repeat('\t', n)) == st.tabSize * n
  {
    if n > 0 {
      assert Repeat('\t', n)[..n - 1] == Repeat('\t', n - 1);
      ColumnsTabs(st, n - 1);
      assert st.tabSize * (n - 1) + st.tabSize == st.tabSize * n;
    }
  }

  /** Text without a line break continues the last line of what precedes it. */
  lemma {:induction false} WidthAppendSameLine(st: TabsAndIndentsStyle, s: string, t: string)
    requires forall k :: 0 <= k < |t| ==> !IsLineBreak(t[k])
    ensures Width(st, s + t) == Width(st, s) + Columns(st, t)
    decreases |t|
  {
    if t == [] {
      assert s + t == s;
    } else {
      var t' := t[..|t| - 1];
      assert s + t == (s + t') + [t[|t| - 1]];
      WidthAppendSameLine(st, s, t');
      WidthSnoc(st, s + t', t[|t| - 1]);
      assert t == t' + [t[|t| - 1]];
      ColumnsAppend(st, t', [t[|t| - 1]]);
    }
  }

  /**
   * getLengthOfWhitespace: the column the whitespace ends at, counting a tab
   * as tabSize and resetting at every line break; null counts as 0.
   */
  method GetLengthOfWhitespace(st: TabsAndIndentsStyle, whitespace: Option<string>) returns (size: int)
    ensures whitespace.None? ==> size == 0
    ensures whitespace.Some? ==> size == Width(st, whitespace.value)
  {
    if whitespace.None? {
      return 0;
    }
    var w := whitespace.value;
    size := 0;
    var i := 0;
    while i < |w|
      invariant 0 <= i <= |w|
      invariant size == Width(st, w[..i])
    {
      var c := w[i];
      size := size + (if c == '\t' then st.tabSize else 1);
      if c == '\n' || c == '\r' {
        size := 0;
      }
      assert w[..i + 1] == w[..i] + [c];
      WidthSnoc(st, w[..i], c);
      i := i + 1;
    }
    assert w[..|w|] == w;
  }

  // ---------------------------------------------------------------------------
  // Shifting whitespace

  /** Java's int division by a positive divisor, truncating toward zero. */
  function JavaDiv(a: int, b: int): (q: int)
    requires b > 0
    ensures a >= 0 ==> 0 <= q
    ensures a <= 0 ==> q <= 0
  {
    if a >= 0 then a / b else -((-a) / b)
  }

  /** Java's int remainder by a positive divisor: it takes the sign of the dividend. */
  function JavaRem(a: int, b: int): (r: int)
    requires b > 0
    ensures a >= 0 ==> 0 <= r < b
    ensures a <= 0 ==> -b < r <= 0
  {
    if a >= 0 then a % b else -((-a) % b)
  }

  /** Quotient and remainder recompose the dividend, as Java guarantees. */
  lemma JavaDivRem(a: int, b: int)
    requires b > 0
    ensures b * JavaDiv(a, b) + JavaRem(a, b) == a
  {
    if a < 0 {
      assert b * ((-a) / b) + (-a) % b == -a;
    }
  }

  function Max0(n: int): nat
  {
    if n > 0 then n else 0
  }

  /** shift divides by tabSize when tabs are used; a non-positive tab size is not modelled. */
  predicate ShiftDefined(st: TabsAndIndentsStyle)
  {
    st.useTabCharacter ==> st.tabSize > 0
  }

  /** The tab width shift uses: tabSize with tabs, Integer.MAX_VALUE without. */
  function TabIndent(st: TabsAndIndentsStyle): (t: int)
    requires ShiftDefined(st)
    ensures t > 0
  {
    if st.useTabCharacter then st.tabSize else MaxInt
  }

  /**
   * The text shift leaves behind: a positive shift appends shift / tabIndent
   * tabs and then shift % tabIndent spaces; any other shift cuts characters
   * off the end (shift / tabSize of them with tabs, -shift without), unless
   * that would leave fewer than none.
   */
  function Indented(st: TabsAndIndentsStyle, text: string, shift: int): string
    requires ShiftDefined(st)
  {
    var ti := TabIndent(st);
    if shift > 0 then
      text + Repeat('\t', Max0(JavaDiv(shift, ti))) + Repeat(' ', Max0(JavaRem(shift, ti)))
    else
      var len := if st.useTabCharacter then |text| + JavaDiv(shift, ti) else |text| + shift;
      if len >= 0 then text[..len] else text
  }

  /** shift (and indent, which applies it to a fresh builder): the loops appending tabs and spaces, or the cut. */
  method Shift(st: TabsAndIndentsStyle, text: string, shift: int) returns (shifted: string)
    requires ShiftDefined(st)
    ensures shifted == Indented(st, text, shift)
  {
    var tabIndent := st.tabSize;
    if !st.useTabCharacter {
      tabIndent := MaxInt;
    }
    shifted := text;
    if shift > 0 {
      var tabs := JavaDiv(shift, tabIndent);
      var i := 0;
      while i < tabs
        invariant 0 <= i && (tabs >= 0 ==> i <= tabs)
        invariant shifted == text + Repeat('\t', i)
      {
        shifted := shifted + "\t";
        i := i + 1;
      }
      assert i == Max0(tabs);
      var spaces := JavaRem(shift, tabIndent);
      var j := 0;
      while j < spaces
        invariant 0 <= j <= spaces
        invariant shifted == text + Repeat('\t', Max0(tabs)) + Repeat(' ', j)
      {
        shifted := shifted + " ";
        j := j + 1;
      }
    } else {
      var len;
      if st.useTabCharacter {
        len := |shifted| + JavaDiv(shift, tabIndent);
      } else {
        len := |shifted| + shift;
      }
      if len >= 0 {
        shifted := shifted[..len];
      }
    }
  }

  /**
   * A positive shift moves the end of the text exactly `shift` columns right
   * (without tabs this holds below Integer.MAX_VALUE, where one tab is appended instead).
   */
  lemma ShiftRightWidth(st: TabsAndIndentsStyle, text: string, shift: int)
    requires ShiftDefined(st) && shift > 0
    requires !st.useTabCharacter ==> shift < MaxInt
    ensures Width(st, Indented(st, text, shift)) == Width(st, text) + shift
  {
    var ti := TabIndent(st);
    var q, r := JavaDiv(shift, ti), JavaRem(shift, ti);
    var ext := Repeat('\t', q) + Repeat(' ', r);
    assert Indented(st, text, shift) == text + ext;
    TabsThenSpaces(st, q, r);
    WidthAppendSameLine(st, text, ext);
    JavaDivRem(shift, ti);
    if !st.useTabCharacter {
      assert q == 0;
    }
  }

  /** Tabs followed by spaces stay on one line and take tabSize columns per tab and one per space. */
  lemma TabsThenSpaces(st: TabsAndIndentsStyle, q: nat, r: nat)
    ensures forall k :: 0 <= k < |Repeat('\t', q) + Repeat(' ', r)| ==> !IsLineBreak((Repeat('\t', q) + Repeat(' ', r))[k])
    ensures Columns(st, Repeat('\t', q) + Repeat(' ', r)) == st.tabSize * q + r
  {
    TabsThenSpacesOneLine(q, r);
    ColumnsAppend(st, Repeat('\t', q), Repeat(' ', r));
    ColumnsTabs(st, q);
    ColumnsSpaces(st, r);
  }

  lemma TabsThenSpacesOneLine(q: nat, r: nat)
    ensures forall k :: 0 <= k < |Repeat('\t', q) + Repeat(' ', r)| ==> !IsLineBreak((Repeat('\t', q) + Repeat(' ', r))[k])
  {
    var tabs, spaces := Repeat('\t', q), Repeat(' ', r);
    forall k | 0 <= k < |tabs + spaces| ensures !IsLineBreak((tabs + spaces)[k]) {
      if k < q {
        assert (tabs + spaces)[k] == tabs[k];
      } else {
        assert (tabs + spaces)[k] == spaces[k - q];
      }
    }
  }

  /**
   * A shift that is not positive only cuts: it removes `k` trailing characters
   * (k = -shift, or -shift / tabSize with tabs) when there are at least `k`,
   * and otherwise leaves the text alone.
   */
  lemma ShiftLeftCuts(st: TabsAndIndentsStyle, text: string, shift: int)
    requires ShiftDefined(st) && shift <= 0
    ensures var k := if st.useTabCharacter then (-shift) / st.tabSize else -shift;
      (k <= |text| ==> Indented(st, text, shift) == text[..|text| - k])
      && (k > |text| ==> Indented(st, text, shift) == text)
  {
  }

  /** Without tabs, cutting trailing spaces moves the end of the line left by as many columns. */
  lemma ShiftLeftWidth(st: TabsAndIndentsStyle, text: string, shift: int)
    requires ShiftDefined(st) && !st.useTabCharacter && shift <= 0 && -shift <= |text|
    requires forall k :: |text| + shift <= k < |text| ==> text[k] == ' '
    ensures Width(st, Indented(st, text, shift)) == Width(st, text) + shift
  {
    var cut := text[..|text| + shift];
    var tail := text[|text| + shift..];
    assert text == cut + tail;
    assert forall k :: 0 <= k < |tail| ==> tail[k] == ' ';
    WidthAppendSameLine(st, cut, tail);
    ColumnsNoTabs(st, tail);
  }

  /**
   * Without tabs, shifting a line made of spaces by the difference between the
   * target column and its width puts its end exactly at the target column.
   */
  lemma RealignLastLine(st: TabsAndIndentsStyle, w: string, column: int)
    requires ShiftDefined(st) && !st.useTabCharacter && 0 <= column < MaxInt
    requires forall k :: 0 <= k < |LastLine(w)| ==> LastLine(w)[k] == ' '
    ensures Width(st, Indented(st, w, column - Width(st, w))) == column
  {
    var l := LastLine(w);
    LastLineShape(w);
    ColumnsNoTabs(st, l);
    var shift := column - Width(st, w);
    if shift > 0 {
      ShiftRightWidth(st, w, shift);
    } else {
      assert forall k :: |w| + shift <= k < |w| ==> w[k] == l[k - (|w| - |l|)];
      ShiftLeftWidth(st, w, shift);
    }
  }

  // ---------------------------------------------------------------------------
  // Re-indenting comment text

  predicate IsBlank(c: char)
  {
    c == ' ' || c == '\t'
  }

  predicate AllBlank(s: string)
  {
    forall k :: 0 <= k < |s| ==> IsBlank(s[k])
  }

  /** `s` without up to `n` of its leading blanks. */
  function DropBlanks(s: string, n: nat): (r: string)
    ensures |r| <= |s|
  {
    if n == 0 || s == [] || !IsBlank(s[0]) then s else DropBlanks(s[1..], n - 1)
  }

  /**
   * DropBlanks removes a prefix of at most `n` blanks, and stops early only at
   * a character that is not a blank.
   */
  lemma {:induction false} DropBlanksShape(s: string, n: nat)
    ensures var r := DropBlanks(s, n);
      r == s[|s| - |r|..] && |s| - |r| <= n
      && (forall k :: 0 <= k < |s| - |r| ==> IsBlank(s[k]))
      && (|s| - |r| < n && r != [] ==> !IsBlank(r[0]))
  {
    if !(n == 0 || s == [] || !IsBlank(s[0])) {
      DropBlanksShape(s[1..], n - 1);
    }
  }

  /**
   * The comment text with, after every '\n', up to `drop` leading blanks of
   * the next line replaced by `margin`.
   */
  function Reindent(t: string, drop: nat, margin: string): string
    decreases |t|
  {
    if t == [] then []
    else if t[0] == '\n' then "\n" + margin + Reindent(DropBlanks(t[1..], drop), drop, margin)
    else [t[0]] + Reindent(t[1..], drop, margin)
  }

  /** The characters of `s` that are not blanks, line breaks included. */
  function Visible(s: string): (r: string)
    ensures |r| <= |s|
  {
    if s == [] then [] else (if IsBlank(s[0]) then [] else [s[0]]) + Visible(s[1..])
  }

  lemma {:induction false} VisibleAppend(a: string, b: string)
    ensures Visible(a + b) == Visible(a) + Visible(b)
  {
    if a != [] {
      assert (a + b)[1..] == a[1..] + b;
      VisibleAppend(a[1..], b);
    } else {
      assert a + b == b;
    }
  }

  lemma {:induction false} VisibleAllBlank(s: string)
    requires AllBlank(s)
    ensures Visible(s) == []
  {
    if s != [] {
      VisibleAllBlank(s[1..]);
    }
  }

  lemma {:induction false} VisibleDropBlanks(s: string, n: nat)
    ensures Visible(DropBlanks(s, n)) == Visible(s)
  {
    if !(n == 0 || s == [] || !IsBlank(s[0])) {
      VisibleDropBlanks(s[1..], n - 1);
    }
  }

  /**
   * Re-indenting with a blank margin changes only blanks: every other
   * character, each line break included, stays, in order.
   */
  lemma {:induction false} ReindentKeepsVisible(t: string, drop: nat, margin: string)
    requires AllBlank(margin)
    ensures Visible(Reindent(t, drop, margin)) == Visible(t)
    decreases |t|
  {
    if t == [] {
    } else if t[0] == '\n' {
      var rest := DropBlanks(t[1..], drop);
      var tail := Reindent(rest, drop, margin);
      assert Reindent(t, drop, margin) == ("\n" + margin) + tail;
      VisibleAppend("\n" + margin, tail);
      VisibleAppend("\n", margin);
      VisibleAllBlank(margin);
      assert Visible("\n") == "\n";
      ReindentKeepsVisible(rest, drop, margin);
      VisibleDropBlanks(t[1..], drop);
      assert Visible(t) == "\n" + Visible(t[1..]);
    } else {
      var tail := Reindent(t[1..], drop, margin);
      assert Reindent(t, drop, margin) == [t[0]] + tail;
      ReindentKeepsVisible(t[1..], drop, margin);
      VisibleAppend([t[0]], tail);
      assert Visible(t) == Visible([t[0]]) + Visible(t[1..]);
    }
  }

  /** Text without a line break is left as it is. */
  lemma {:induction false} ReindentSingleLine(t: string, drop: nat, margin: string)
    requires '\n' !in t
    ensures Reindent(t, drop, margin) == t
    decreases |t|
  {
    if t != [] {
      assert t[0] in t;
      assert forall c :: c in t[1..] ==> c in t;
      ReindentSingleLine(t[1..], drop, margin);
    }
  }

  /** Every line break of `t` is followed by `oldMargin`. */
  predicate Margined(t: string, oldMargin: string)
  {
    forall i :: 0 <= i < |t| && t[i] == '\n' ==> OccursAt(t, "\n" + oldMargin, i)
  }

  /**
   * When every line of a comment starts with the oldMargin blank margin,
   * re-indenting replaces exactly that margin by the new one.
   */
  lemma {:induction false} ReindentReplacesMargin(t: string, oldMargin: string, margin: string)
    requires AllBlank(oldMargin) && Margined(t, oldMargin)
    ensures Reindent(t, |oldMargin|, margin) == ReplaceLiteral(t, "\n" + oldMargin, "\n" + margin)
    decreases |t|
  {
    var pat := "\n" + oldMargin;
    if |t| < |pat| {
      forall c | c in t ensures c != '\n' {
        var i :| 0 <= i < |t| && t[i] == c;
      }
      ReindentSingleLine(t, |oldMargin|, margin);
    } else if t[..|pat|] == pat {
      assert t[0] == pat[0];
      var body := t[1..];
      assert body[..|oldMargin|] == oldMargin;
      DropOld(body, oldMargin);
      assert t[|pat|..] == body[|oldMargin|..];
      MarginedSuffix(t, oldMargin, |pat|);
      ReindentReplacesMargin(t[|pat|..], oldMargin, margin);
      assert Reindent(t, |oldMargin|, margin) == "\n" + margin + Reindent(t[|pat|..], |oldMargin|, margin);
    } else {
      assert !OccursAt(t, pat, 0);
      MarginedSuffix(t, oldMargin, 1);
      ReindentReplacesMargin(t[1..], oldMargin, margin);
    }
  }

  lemma MarginedSuffix(t: string, oldMargin: string, d: nat)
    requires Margined(t, oldMargin) && d <= |t|
    ensures Margined(t[d..], oldMargin)
  {
    var pat := "\n" + oldMargin;
    var rest := t[d..];
    forall i | 0 <= i < |rest| && rest[i] == '\n' ensures OccursAt(rest, pat, i) {
      assert t[d + i] == '\n';
      assert OccursAt(t, pat, d + i);
      assert t[d + i..d + i + |pat|] == rest[i..i + |pat|];
    }
  }

  lemma {:induction false} DropOld(s: string, oldMargin: string)
    requires AllBlank(oldMargin) && |oldMargin| <= |s| && s[..|oldMargin|] == oldMargin
    ensures DropBlanks(s, |oldMargin|) == s[|oldMargin|..]
    decreases |oldMargin|
  {
    if |oldMargin| > 0 {
      assert s[1..][..|oldMargin| - 1] == oldMargin[1..];
      DropOld(s[1..], oldMargin[1..]);
      assert s[1..][|oldMargin| - 1..] == s[|oldMargin|..];
    }
  }

  /** The re-indenting loop of indentComment: each '\n' copied with the margin, then up to `drop` blanks skipped. */
  method ReindentText(text: string, drop: nat, margin: string) returns (r: string)
    ensures r == Reindent(text, drop, margin)
  {
    r := [];
    var i := 0;
    while i < |text|
      invariant 0 <= i <= |text|
      invariant r + Reindent(text[i..], drop, margin) == Reindent(text, drop, margin)
      decreases |text| - i
    {
      ghost var rest := text[i + 1..];
      assert text[i..] == [text[i]] + rest;
      if text[i] == '\n' {
        ghost var r0 := r;
        assert Reindent(text[i..], drop, margin) == "\n" + margin + Reindent(DropBlanks(rest, drop), drop, margin);
        r := r + "\n" + margin;
        var j := SkipBlanks(text, i + 1, drop);
        assert r0 + ("\n" + margin + Reindent(text[i + 1 + j..], drop, margin))
            == r + Reindent(text[i + 1 + j..], drop, margin);
        i := i + 1 + j;
      } else {
        assert Reindent(text[i..], drop, margin) == [text[i]] + Reindent(rest, drop, margin);
        r := r + [text[i]];
        i := i + 1;
      }
    }
  }

  /** The inner skip loop: up to `drop` blanks from `from` on, stopping at the end of the text. */
  method SkipBlanks(text: string, from: nat, drop: nat) returns (j: nat)
    requires from <= |text|
    ensures j <= drop && from + j <= |text| && DropBlanks(text[from..], drop) == text[from + j..]
  {
    j := 0;
    while j < drop && from + j < |text| && IsBlank(text[from + j])
      invariant 0 <= j <= drop && from + j <= |text|
      invariant DropBlanks(text[from..], drop) == DropBlanks(text[from + j..], drop - j)
    {
      assert text[from + j..] == [text[from + j]] + text[from + j + 1..];
      j := j + 1;
    }
  }

  // The skip loops of indentComment as they are written, kept for the findings.

  /**
   * The negative-shift skip loop as written: the test reads chars[j + i + 1]
   * while the body also advances i, so it probes every other character; None
   * is the ArrayIndexOutOfBoundsException when the probe passes the end.
   */
  function SkipAsWritten(chars: string, n: nat, i: nat, j: nat): (r: Option<nat>)
    requires i < |chars|
    ensures r.Some? ==> i <= r.value < |chars|
    decreases n - j
  {
    if j < n then
      if j + i + 1 < |chars| then
        if IsBlank(chars[j + i + 1]) then SkipAsWritten(chars, n, i + 1, j + 1) else Some(i)
      else None
    else Some(i)
  }

  /** The negative-shift re-indenting loop as written, from index `i`. */
  function DedentAsWritten(chars: string, n: nat, i: nat): (r: Option<string>)
    decreases |chars| - i
  {
    if i >= |chars| then Some([])
    else if chars[i] == '\n' then
      match SkipAsWritten(chars, n, i, 0)
      case None => None
      case Some(k) =>
        var rest := DedentAsWritten(chars, n, k + 1);
        if rest.Some? then Some("\n" + rest.value) else None
    else
      var rest := DedentAsWritten(chars, n, i + 1);
      if rest.Some? then Some([chars[i]] + rest.value) else None
  }

  /** The positive-shift re-indenting loop as written: after each '\n' it skips margin.length() characters unseen. */
  function RemarginAsWritten(chars: string, i: nat, skip: nat, newMargin: string): string
    decreases |chars| - i
  {
    if i >= |chars| then []
    else if chars[i] == '\n' then "\n" + newMargin + RemarginAsWritten(chars, i + skip + 1, skip, newMargin)
    else [chars[i]] + RemarginAsWritten(chars, i + 1, skip, newMargin)
  }

  /** Shifting "\n x y" two columns left: the loop as written drops the 'x'; Reindent keeps it. */
  lemma DedentAsWrittenDropsText()
    ensures DedentAsWritten("\n x y", 2, 0) == Some("\n y")
    ensures Reindent("\n x y", 2, "") == "\nx y"
    ensures Visible("\n y") != Visible("\n x y")
  {
    DedentAsWrittenExample();
    ReindentExample();
    VisibleExample();
  }

  lemma DedentAsWrittenExample()
    ensures DedentAsWritten("\n x y", 2, 0) == Some("\n y")
  {
    var t := "\n x y";
    assert SkipAsWritten(t, 2, 0, 0) == Some(2);
    assert DedentAsWritten(t, 2, 5) == Some([]);
    assert t[4] == 'y' && t[3] == ' ';
    assert [t[4]] + [] == "y";
    assert DedentAsWritten(t, 2, 4) == Some("y");
    assert [t[3]] + "y" == " y";
    assert DedentAsWritten(t, 2, 3) == Some(" y");
    assert "\n" + " y" == "\n y";
  }

  lemma ReindentExample()
    ensures Reindent("\n x y", 2, "") == "\nx y"
  {
    var t := "\n x y";
    assert DropBlanks(t[1..], 2) == "x y";
    assert Reindent("y", 2, "") == "y";
    assert Reindent(" y", 2, "") == " y";
    assert Reindent("x y", 2, "") == "x y";
  }

  lemma VisibleExample()
    ensures Visible("\n y") != Visible("\n x y")
  {
    assert Visible("y") == "y";
    assert Visible(" y") == "y";
    assert Visible("\n y") == "\ny";
    assert Visible("x y") == "xy";
    assert Visible(" x y") == "xy";
  }

  /** Shifting "\n " two columns left: the loop as written reads past the end; Reindent gives "\n". */
  lemma DedentAsWrittenOverruns()
    ensures DedentAsWritten("\n ", 2, 0) == None
    ensures Reindent("\n ", 2, "") == "\n"
  {
    var t := "\n ";
    assert SkipAsWritten(t, 2, 1, 1) == None;
    assert DropBlanks(t[1..], 2) == [];
  }

  /**
   * Re-margining "\n\n  x" from a two-space margin to four spaces: the loop as
   * written skips the blank line's line break; Reindent keeps both lines.
   */
  lemma RemarginAsWrittenLosesLineBreak()
    ensures RemarginAsWritten("\n\n  x", 0, 2, "    ") == "\n     x"
    ensures Reindent("\n\n  x", 2, "    ") == "\n    \n    x"
  {
    var t := "\n\n  x";
    assert RemarginAsWritten(t, 5, 2, "    ") == [];
    assert RemarginAsWritten(t, 4, 2, "    ") == "x";
    assert RemarginAsWritten(t, 3, 2, "    ") == " x";
    assert DropBlanks(t[1..], 2) == "\n  x";
    assert DropBlanks("  x", 2) == "x";
    assert Reindent("x", 2, "    ") == "x";
    assert Reindent("\n  x", 2, "    ") == "\n    x";
  }

  // ---------------------------------------------------------------------------
  // indentComment and indentTo

  function Suffix(c: Comment): string
  {
    c.suffix
  }

  function WithSuffix(c: Comment, suffix: string): (r: Comment)
    ensures Suffix(r) == suffix
  {
    c.(suffix := suffix)
  }

  /** Comment.isMultiline: the flag of a text comment; a Javadoc comment is taken as multi-line. */
  predicate IsMultiline(c: Comment)
  {
    c.TextComment? ==> c.multiline
  }

  /**
   * indentComment (text-comment branch): a multi-line text comment spanning
   * several lines is moved by the distance between `column` and the width of
   * the prior suffix's margin; to the right every line break gets the shifted
   * margin in place of the old one, to the left up to |shift| blanks are
   * removed after every line break. Javadoc comments are returned as given.
   */
  function IndentCommentSpec(st: TabsAndIndentsStyle, h: Helpers, comment: Comment, priorSuffix: string,
                             column: int): (r: Comment)
    requires ShiftDefined(st)
    ensures Suffix(r) == Suffix(comment) && r.TextComment? == comment.TextComment?
    ensures r.TextComment? ==> r.multiline == comment.multiline
    ensures comment.DocComment? ==> r == comment
    ensures comment.TextComment? && !HasNewline(comment.text) ==> r == comment
    ensures comment.TextComment? && !comment.multiline ==> r == comment
    ensures Width(st, h.commonMargin(priorSuffix)) == column ==> r == comment
  {
    match comment
    case DocComment(_) => comment
    case TextComment(text, multiline, _) =>
      if !HasNewline(text) then comment
      else
        var margin := h.commonMargin(priorSuffix);
        var shift := column - Width(st, margin);
        if shift > 0 then
          if multiline then comment.(text := Reindent(text, |margin|, Indented(st, margin, shift))) else comment
        else if shift < 0 then
          if multiline then comment.(text := Reindent(text, -shift, "")) else comment
        else comment
  }

  method IndentComment(st: TabsAndIndentsStyle, h: Helpers, comment: Comment, priorSuffix: string, column: int)
    returns (r: Comment)
    requires ShiftDefined(st)
    ensures r == IndentCommentSpec(st, h, comment, priorSuffix, column)
  {
    if comment.TextComment? {
      if !HasNewline(comment.text) {
        return comment;
      }
      var margin := h.commonMargin(priorSuffix);
      var indent := GetLengthOfWhitespace(st, Some(margin));
      var shift := column - indent;
      if shift > 0 {
        var newMargin := Shift(st, margin, shift);
        if comment.multiline {
          var text := ReindentText(comment.text, |margin|, newMargin);
          return comment.(text := text);
        }
      } else if shift < 0 {
        if comment.multiline {
          var text := ReindentText(comment.text, -shift, "");
          return comment.(text := text);
        }
      } else {
        return comment;
      }
    }
    return comment;
  }

  /** When the margin is blank, re-indenting a comment changes nothing but blanks in its text. */
  lemma IndentCommentKeepsText(st: TabsAndIndentsStyle, h: Helpers, comment: Comment, priorSuffix: string,
                               column: int)
    requires ShiftDefined(st) && comment.TextComment? && AllBlank(h.commonMargin(priorSuffix))
    ensures var r := IndentCommentSpec(st, h, comment, priorSuffix, column);
      Visible(r.text) == Visible(comment.text)
  {
    var margin := h.commonMargin(priorSuffix);
    var shift := column - Width(st, margin);
    if HasNewline(comment.text) && comment.multiline {
      if shift > 0 {
        var ti := TabIndent(st);
        var m := Indented(st, margin, shift);
        assert m == margin + Repeat('\t', Max0(JavaDiv(shift, ti))) + Repeat(' ', Max0(JavaRem(shift, ti)));
        assert AllBlank(m);
        ReindentKeepsVisible(comment.text, |margin|, m);
      } else if shift < 0 {
        ReindentKeepsVisible(comment.text, -shift, "");
      }
    }
  }

  /** The comments of the space start on a line of their own in a file or class header. */
  predicate HasFileLeadingComment(space: Space, loc: Location)
  {
    space.comments != []
    && (loc == CompilationUnitPrefix || (loc == ClassDeclarationPrefix && IsMultiline(space.comments[0])))
  }

  /** The column comment `i` of `n` is moved to: inside a block's end all but the last stay one indent deeper. */
  function ToColumn(st: TabsAndIndentsStyle, loc: Location, i: nat, n: nat, column: int): int
  {
    if loc == BlockEnd && i != n - 1 then column + st.indentSize else column
  }

  /** The suffix of comment `i - 1`, or the space's whitespace for the first comment. */
  function PriorSuffix(space: Space, i: nat): string
    requires i < |space.comments|
  {
    if i == 0 then space.whitespace else Suffix(space.comments[i - 1])
  }

  /** A suffix holding a line break is shifted so that its last line ends at `toColumn`. */
  function RealignSuffix(st: TabsAndIndentsStyle, c: Comment, toColumn: int): Comment
    requires ShiftDefined(st)
  {
    if HasNewline(Suffix(c)) then WithSuffix(c, Indented(st, Suffix(c), toColumn - Width(st, Suffix(c)))) else c
  }

  /** Comment `i` re-indented when it starts a line of its own; its suffix is untouched. */
  function Reindented(st: TabsAndIndentsStyle, h: Helpers, space: Space, i: nat, toColumn: int, loc: Location)
    : (r: Comment)
    requires ShiftDefined(st) && i < |space.comments|
    ensures Suffix(r) == Suffix(space.comments[i])
    ensures !(HasNewline(PriorSuffix(space, i)) || HasFileLeadingComment(space, loc)) ==> r == space.comments[i]
  {
    if HasNewline(PriorSuffix(space, i)) || HasFileLeadingComment(space, loc)
    then IndentCommentSpec(st, h, space.comments[i], PriorSuffix(space, i), toColumn) else space.comments[i]
  }

  /** One comment of indentTo's comment pass: the comment re-indented, then its suffix re-aligned. */
  function AlignComment(st: TabsAndIndentsStyle, h: Helpers, space: Space, i: nat, column: int, loc: Location)
    : Comment
    requires ShiftDefined(st) && i < |space.comments|
  {
    var toColumn := ToColumn(st, loc, i, |space.comments|, column);
    RealignSuffix(st, Reindented(st, h, space, i, toColumn, loc), toColumn)
  }

  /** All comments of the space through indentTo's comment pass. */
  function AlignComments(st: TabsAndIndentsStyle, h: Helpers, space: Space, column: int, loc: Location)
    : (r: seq<Comment>)
    requires ShiftDefined(st)
    ensures |r| == |space.comments|
  {
    seq(|space.comments|, i requires 0 <= i < |space.comments| => AlignComment(st, h, space, i, column, loc))
  }

  lemma AlignCommentsAt(st: TabsAndIndentsStyle, h: Helpers, space: Space, column: int, loc: Location, i: nat)
    requires ShiftDefined(st) && i < |space.comments|
    ensures AlignComments(st, h, space, column, loc)[i] == AlignComment(st, h, space, i, column, loc)
  {
  }

  /** The text after the last '\n' of the whitespace (all of it when there is none). */
  function LastIndent(w: string): string
  {
    w[LastIndexOf(w, '\n') + 1..]
  }

  /** The column the whitespace in front of the comments is moved to. */
  function FinalColumn(st: TabsAndIndentsStyle, loc: Location, column: int): int
  {
    if loc == BlockEnd then column + st.indentSize else column
  }

  /**
   * indentTo for a space with comments. `s` is the space after the
   * compilation-unit reset; nothing changes when the leading indent already
   * sits at the final column.
   */
  function IndentCommented(st: TabsAndIndentsStyle, h: Helpers, space: Space, s: Space, column: int,
                           loc: Location): (r: Space)
    requires ShiftDefined(st)
    ensures |r.comments| == |s.comments| || |r.comments| == |space.comments|
  {
    var finalColumn := FinalColumn(st, loc, column);
    var indent := Width(st, h.leadingIndent(LastIndent(space.whitespace)));
    if indent == finalColumn then s
    else Space(LeadingWhitespace(st, space, s, finalColumn - indent, loc), AlignComments(st, h, space, column, loc))
  }

  /** The whitespace in front of the comments: its last line shifted when it has a line break or leads the file. */
  function LeadingWhitespace(st: TabsAndIndentsStyle, space: Space, s: Space, shift: int, loc: Location): string
    requires ShiftDefined(st)
  {
    var w := space.whitespace;
    if HasNewline(w) || HasFileLeadingComment(space, loc)
    then w[..LastIndexOf(w, '\n') + 1] + Indented(st, LastIndent(w), shift)
    else s.whitespace
  }

  /**
   * indentTo: the space re-indented to `column`. A space with neither comments
   * nor a line break in its last whitespace is returned unchanged, except that
   * the compilation unit's prefix whitespace is always cleared.
   */
  function IndentToSpec(st: TabsAndIndentsStyle, h: Helpers, space: Space, column: int, loc: Location)
    : (r: Space)
    requires ShiftDefined(st)
    ensures loc != CompilationUnitPrefix && space.comments == [] && !HasNewline(space.whitespace) ==> r == space
  {
    var cuReset := loc == CompilationUnitPrefix && space.whitespace != "";
    if !cuReset && space.comments == [] && !HasNewline(LastWhitespace(space)) then space
    else if space.comments == [] then IndentUncommented(st, h, space, CuReset(space, loc), column)
    else IndentCommented(st, h, space, CuReset(space, loc), column, loc)
  }

  /** The space indentTo starts from: the compilation unit's prefix whitespace cleared. */
  function CuReset(space: Space, loc: Location): (s: Space)
    ensures s.comments == space.comments
  {
    if loc == CompilationUnitPrefix && space.whitespace != "" then space.(whitespace := "") else space
  }

  /** indentTo for a space with comments is its comment pass. */
  lemma IndentToCommented(st: TabsAndIndentsStyle, h: Helpers, space: Space, column: int, loc: Location)
    requires ShiftDefined(st) && space.comments != []
    ensures IndentToSpec(st, h, space, column, loc) == IndentCommented(st, h, space, CuReset(space, loc), column, loc)
  {
  }

  /** indentTo for a space without comments: its whitespace shifted by the distance from Space.getIndent's width to `column`. */
  function IndentUncommented(st: TabsAndIndentsStyle, h: Helpers, space: Space, s: Space, column: int): Space
    requires ShiftDefined(st)
  {
    var indent := Width(st, h.spaceIndent(s));
    if indent != column then s.(whitespace := Indented(st, space.whitespace, column - indent)) else s
  }

  /** The body of the ListUtils.map lambda of indentTo, for comment `i`. */
  method IndentOneComment(st: TabsAndIndentsStyle, h: Helpers, space: Space, i: nat, column: int, loc: Location)
    returns (c2: Comment)
    requires ShiftDefined(st) && i < |space.comments|
    ensures c2 == AlignComment(st, h, space, i, column, loc)
  {
    var priorSuffix := PriorSuffix(space, i);
    var toColumn := ToColumn(st, loc, i, |space.comments|, column);
    c2 := space.comments[i];
    if HasNewline(priorSuffix) || HasFileLeadingComment(space, loc) {
      c2 := IndentComment(st, h, c2, priorSuffix, toColumn);
    }
    c2 := AlignSuffix(st, c2, toColumn);
  }

  method AlignSuffix(st: TabsAndIndentsStyle, c: Comment, toColumn: int) returns (c2: Comment)
    requires ShiftDefined(st)
    ensures c2 == RealignSuffix(st, c, toColumn)
  {
    c2 := c;
    if HasNewline(Suffix(c2)) {
      var suffixIndent := GetLengthOfWhitespace(st, Some(Suffix(c2)));
      var suffix := Shift(st, Suffix(c2), toColumn - suffixIndent);
      c2 := WithSuffix(c2, suffix);
    }
  }

  /** The ListUtils.map pass of indentTo over the comments. */
  method IndentComments(st: TabsAndIndentsStyle, h: Helpers, space: Space, column: int, loc: Location)
    returns (comments: seq<Comment>)
    requires ShiftDefined(st)
    ensures comments == AlignComments(st, h, space, column, loc)
  {
    comments := [];
    var i := 0;
    while i < |space.comments|
      invariant 0 <= i <= |space.comments| && |comments| == i
      invariant forall k :: 0 <= k < i ==> comments[k] == AlignComment(st, h, space, k, column, loc)
    {
      var c2 := IndentOneComment(st, h, space, i, column, loc);
      comments := comments + [c2];
      i := i + 1;
    }
    forall k | 0 <= k < |comments| ensures comments[k] == AlignComments(st, h, space, column, loc)[k] {
      AlignCommentsAt(st, h, space, column, loc, k);
    }
  }

  method IndentTo(st: TabsAndIndentsStyle, h: Helpers, space: Space, column: int, loc: Location)
    returns (s: Space)
    requires ShiftDefined(st)
    ensures s == IndentToSpec(st, h, space, column, loc)
  {
    s := space;
    var whitespace := s.whitespace;
    if loc == CompilationUnitPrefix && whitespace != "" {
      s := s.(whitespace := "");
    } else if s.comments == [] && !HasNewline(LastWhitespace(s)) {
      return s;
    }
    if s.comments == [] {
      s := IndentBare(st, h, space, s, column);
    } else {
      s := IndentWithComments(st, h, space, s, column, loc);
    }
  }

  method IndentBare(st: TabsAndIndentsStyle, h: Helpers, space: Space, s0: Space, column: int) returns (s: Space)
    requires ShiftDefined(st)
    ensures s == IndentUncommented(st, h, space, s0, column)
  {
    s := s0;
    var indent := GetLengthOfWhitespace(st, Some(h.spaceIndent(s)));
    if indent != column {
      var w := Shift(st, space.whitespace, column - indent);
      s := s.(whitespace := w);
    }
  }

  method IndentWithComments(st: TabsAndIndentsStyle, h: Helpers, space: Space, s0: Space, column: int,
                            loc: Location) returns (s: Space)
    requires ShiftDefined(st) && s0.comments == space.comments
    ensures s == IndentCommented(st, h, space, s0, column, loc)
  {
    var finalColumn := FinalColumn(st, loc, column);
    var indent := GetLengthOfWhitespace(st, Some(h.leadingIndent(LastIndent(space.whitespace))));
    if indent == finalColumn {
      return s0;
    }
    var ws := ShiftLeadingWhitespace(st, space, s0, finalColumn - indent, loc);
    var comments := IndentComments(st, h, space, column, loc);
    s := Space(ws, comments);
  }

  method ShiftLeadingWhitespace(st: TabsAndIndentsStyle, space: Space, s0: Space, shift: int, loc: Location)
    returns (ws: string)
    requires ShiftDefined(st)
    ensures ws == LeadingWhitespace(st, space, s0, shift, loc)
  {
    var whitespace := space.whitespace;
    ws := s0.whitespace;
    if HasNewline(whitespace) || HasFileLeadingComment(space, loc) {
      var nl := LastIndexOf(whitespace, '\n');
      var w := Shift(st, whitespace[nl + 1..], shift);
      ws := whitespace[..nl + 1] + w;
    }
  }

  /**
   * With Space.getIndent giving the text after the last line break, a space
   * without comments whose indentation is made of spaces ends, after indentTo,
   * exactly at `column` (tabs off).
   */
  lemma IndentToReachesColumn(st: TabsAndIndentsStyle, h: Helpers, space: Space, column: int, loc: Location)
    requires ShiftDefined(st) && !st.useTabCharacter && 0 <= column < MaxInt
    requires loc != CompilationUnitPrefix && space.comments == [] && HasNewline(space.whitespace)
    requires h.spaceIndent(space) == LastLine(space.whitespace)
    requires forall k :: 0 <= k < |LastLine(space.whitespace)| ==> LastLine(space.whitespace)[k] == ' '
    ensures var r := IndentToSpec(st, h, space, column, loc);
      r.comments == [] && Width(st, r.whitespace) == column
  {
    var w := space.whitespace;
    assert LastLine(LastLine(w)) == LastLine(w) by {
      LastLineOfLine(LastLine(w));
    }
    assert Width(st, h.spaceIndent(space)) == Width(st, w);
    assert CuReset(space, loc) == space;
    assert IndentToSpec(st, h, space, column, loc) == IndentUncommented(st, h, space, space, column);
    RealignLastLine(st, w, column);
  }

  lemma {:induction false} LastLineOfLine(t: string)
    requires forall k :: 0 <= k < |t| ==> !IsLineBreak(t[k])
    ensures LastLine(t) == t
    decreases |t|
  {
    if t != [] {
      LastLineOfLine(t[..|t| - 1]);
    }
  }

  /**
   * In the comment pass, a comment's suffix that contains a line break and
   * is indented with spaces is re-aligned to its target column: inside a
   * block's end every comment but the last is followed by a line at
   * column + indentSize and the last by a line at `column` (tabs off).
   */
  lemma IndentToAlignsCommentSuffixes(st: TabsAndIndentsStyle, h: Helpers, space: Space, column: int,
                                      loc: Location, i: nat)
    requires ShiftDefined(st) && !st.useTabCharacter
    requires i < |space.comments|
    requires Width(st, h.leadingIndent(LastIndent(space.whitespace))) != FinalColumn(st, loc, column)
    requires HasNewline(Suffix(space.comments[i]))
    requires forall k :: 0 <= k < |LastLine(Suffix(space.comments[i]))| ==> LastLine(Suffix(space.comments[i]))[k] == ' '
    requires 0 <= ToColumn(st, loc, i, |space.comments|, column) < MaxInt
    ensures |IndentToSpec(st, h, space, column, loc).comments| == |space.comments|
    ensures Width(st, Suffix(IndentToSpec(st, h, space, column, loc).comments[i])) ==
      if loc == BlockEnd && i < |space.comments| - 1 then column + st.indentSize else column
  {
    CommentPassResult(st, h, space, column, loc, i);
    AlignedSuffixWidth(st, h, space, i, column, loc);
  }

  /** The comment pass leaves a suffix of spaces after a line break ending at the comment's target column. */
  lemma AlignedSuffixWidth(st: TabsAndIndentsStyle, h: Helpers, space: Space, i: nat, column: int, loc: Location)
    requires ShiftDefined(st) && !st.useTabCharacter
    requires i < |space.comments| && HasNewline(Suffix(space.comments[i]))
    requires forall k :: 0 <= k < |LastLine(Suffix(space.comments[i]))| ==> LastLine(Suffix(space.comments[i]))[k] == ' '
    requires 0 <= ToColumn(st, loc, i, |space.comments|, column) < MaxInt
    ensures Width(st, Suffix(AlignComment(st, h, space, i, column, loc))) == ToColumn(st, loc, i, |space.comments|, column)
  {
    AlignCommentSuffix(st, h, space, i, column, loc);
    RealignLastLine(st, Suffix(space.comments[i]), ToColumn(st, loc, i, |space.comments|, column));
  }

  /** When the leading indent is off, indentTo's comments are those of the comment pass. */
  lemma CommentPassResult(st: TabsAndIndentsStyle, h: Helpers, space: Space, column: int, loc: Location, i: nat)
    requires ShiftDefined(st) && i < |space.comments|
    requires Width(st, h.leadingIndent(LastIndent(space.whitespace))) != FinalColumn(st, loc, column)
    ensures var r := IndentToSpec(st, h, space, column, loc);
      |r.comments| == |space.comments| && r.comments[i] == AlignComment(st, h, space, i, column, loc)
  {
    IndentToCommented(st, h, space, column, loc);
    CommentedComments(st, h, space, CuReset(space, loc), column, loc);
    AlignCommentsAt(st, h, space, column, loc, i);
  }

  /** Off the final column, the comment pass re-aligns the comments. */
  lemma CommentedComments(st: TabsAndIndentsStyle, h: Helpers, space: Space, s: Space, column: int, loc: Location)
    requires ShiftDefined(st)
    requires Width(st, h.leadingIndent(LastIndent(space.whitespace))) != FinalColumn(st, loc, column)
    ensures IndentCommented(st, h, space, s, column, loc).comments == AlignComments(st, h, space, column, loc)
  {
  }

  /** The comment pass keeps a comment's suffix up to the final shift to the target column. */
  lemma AlignCommentSuffix(st: TabsAndIndentsStyle, h: Helpers, space: Space, i: nat, column: int, loc: Location)
    requires ShiftDefined(st) && i < |space.comments| && HasNewline(Suffix(space.comments[i]))
    ensures Suffix(AlignComment(st, h, space, i, column, loc))
      == Indented(st, Suffix(space.comments[i]),
                  ToColumn(st, loc, i, |space.comments|, column) - Width(st, Suffix(space.comments[i])))
  {
    var toColumn := ToColumn(st, loc, i, |space.comments|, column);
    var c2 := Reindented(st, h, space, i, toColumn, loc);
    assert Suffix(c2) == Suffix(space.comments[i]);
  }

  /**
   * The whitespace in front of the first comment, when it holds a line break
   * and its last line is made of spaces, is re-aligned to the final column:
   * column + indentSize at a block's end, `column` elsewhere (tabs off, with
   * StringUtils.indent giving the whole of that last line).
   */
  lemma IndentToAlignsLeadingWhitespace(st: TabsAndIndentsStyle, h: Helpers, space: Space, column: int,
                                        loc: Location)
    requires ShiftDefined(st) && !st.useTabCharacter && loc != CompilationUnitPrefix
    requires space.comments != [] && HasNewline(space.whitespace)
    requires h.leadingIndent(LastIndent(space.whitespace)) == LastIndent(space.whitespace)
    requires forall k :: 0 <= k < |LastIndent(space.whitespace)| ==> LastIndent(space.whitespace)[k] == ' '
    requires 0 <= FinalColumn(st, loc, column) < MaxInt
    ensures Width(st, IndentToSpec(st, h, space, column, loc).whitespace)
      == if loc == BlockEnd then column + st.indentSize else column
  {
    var w := space.whitespace;
    var fc := FinalColumn(st, loc, column);
    var r := IndentToSpec(st, h, space, column, loc);
    assert Width(st, r.whitespace) == fc by {
      LeadingPassResult(st, h, space, column, loc);
      RealignAfterLastBreak(st, w, fc);
    }
  }

  /**
   * Whitespace holding a line break whose last line is made of spaces ends at
   * `column` once that last line is shifted by its distance to `column`.
   */
  lemma RealignAfterLastBreak(st: TabsAndIndentsStyle, w: string, column: int)
    requires ShiftDefined(st) && !st.useTabCharacter && HasNewline(w) && 0 <= column < MaxInt
    requires forall k :: 0 <= k < |LastIndent(w)| ==> LastIndent(w)[k] == ' '
    ensures Width(st, LastIndent(w)) != column ==>
      Width(st, w[..LastIndexOf(w, '\n') + 1] + Indented(st, LastIndent(w), column - Width(st, LastIndent(w)))) == column
    ensures Width(st, LastIndent(w)) == column ==> Width(st, w) == column
  {
    SplitAtLastBreak(w);
    var head := w[..LastIndexOf(w, '\n') + 1];
    var lastIndent := LastIndent(w);
    ShiftedBlankLine(st, head, lastIndent, column);
    BlankLineAfterBreak(st, head, lastIndent);
  }

  /** A line of spaces after a line break ends at its own width. */
  lemma BlankLineAfterBreak(st: TabsAndIndentsStyle, head: string, t: string)
    requires |head| > 0 && head[|head| - 1] == '\n'
    requires forall k :: 0 <= k < |t| ==> t[k] == ' '
    ensures Width(st, head + t) == Width(st, t)
  {
    AfterLineBreak(st, head, t);
    assert forall k :: 0 <= k < |t| ==> !IsLineBreak(t[k]);
    LastLineOfLine(t);
  }

  /** Whitespace holding a line break is its text up to the last '\n' followed by LastIndent. */
  lemma SplitAtLastBreak(w: string)
    requires HasNewline(w)
    ensures 0 <= LastIndexOf(w, '\n') < |w| && w[LastIndexOf(w, '\n')] == '\n'
    ensures w == w[..LastIndexOf(w, '\n') + 1] + LastIndent(w)
  {
    var k :| 0 <= k < |w| && w[k] == '\n';
    var nl := LastIndexOf(w, '\n');
    assert k <= nl;
    TakeDrop(w, nl + 1);
  }

  /** A line of spaces after a line break, shifted by its distance to `column`, ends at `column`. */
  lemma ShiftedBlankLine(st: TabsAndIndentsStyle, head: string, t: string, column: int)
    requires ShiftDefined(st) && !st.useTabCharacter && 0 <= column < MaxInt
    requires |head| > 0 && head[|head| - 1] == '\n'
    requires forall k :: 0 <= k < |t| ==> t[k] == ' '
    ensures Width(st, head + Indented(st, t, column - Width(st, t))) == column
  {
    LastLineOfLine(t);
    RealignLastLine(st, t, column);
    var moved := Indented(st, t, column - Width(st, t));
    MovedIsBlank(st, t, column - Width(st, t));
    AfterLineBreak(st, head, moved);
    assert forall k :: 0 <= k < |moved| ==> !IsLineBreak(moved[k]);
    LastLineOfLine(moved);
  }

  /** The whitespace indentTo leaves in front of the comments of a space that has some. */
  lemma LeadingPassResult(st: TabsAndIndentsStyle, h: Helpers, space: Space, column: int, loc: Location)
    requires ShiftDefined(st) && loc != CompilationUnitPrefix && space.comments != [] && HasNewline(space.whitespace)
    ensures Width(st, h.leadingIndent(LastIndent(space.whitespace))) == FinalColumn(st, loc, column) ==>
      IndentToSpec(st, h, space, column, loc).whitespace == space.whitespace
    ensures Width(st, h.leadingIndent(LastIndent(space.whitespace))) != FinalColumn(st, loc, column) ==>
      IndentToSpec(st, h, space, column, loc).whitespace
      == space.whitespace[..LastIndexOf(space.whitespace, '\n') + 1]
         + Indented(st, LastIndent(space.whitespace),
                    FinalColumn(st, loc, column) - Width(st, h.leadingIndent(LastIndent(space.whitespace))))
  {
    var w := space.whitespace;
    var indent := Width(st, h.leadingIndent(LastIndent(w)));
    var shift := FinalColumn(st, loc, column) - indent;
    var r := IndentToSpec(st, h, space, column, loc);
    assert r == IndentCommented(st, h, space, space, column, loc) by {
      IndentToCommented(st, h, space, column, loc);
      assert CuReset(space, loc) == space;
    }
    CommentedWhitespace(st, h, space, space, column, loc);
    assert LeadingWhitespace(st, space, space, shift, loc)
      == w[..LastIndexOf(w, '\n') + 1] + Indented(st, LastIndent(w), shift);
  }

  /** The whitespace of the comment pass: as reset on the final column, LeadingWhitespace off it. */
  lemma CommentedWhitespace(st: TabsAndIndentsStyle, h: Helpers, space: Space, s: Space, column: int, loc: Location)
    requires ShiftDefined(st)
    ensures Width(st, h.leadingIndent(LastIndent(space.whitespace))) == FinalColumn(st, loc, column) ==>
      IndentCommented(st, h, space, s, column, loc) == s
    ensures Width(st, h.leadingIndent(LastIndent(space.whitespace))) != FinalColumn(st, loc, column) ==>
      IndentCommented(st, h, space, s, column, loc).whitespace
      == LeadingWhitespace(st, space, s, FinalColumn(st, loc, column) - Width(st, h.leadingIndent(LastIndent(space.whitespace))), loc)
  {
  }

  /** Shifting blank text leaves blank text. */
  lemma MovedIsBlank(st: TabsAndIndentsStyle, t: string, shift: int)
    requires ShiftDefined(st) && AllBlank(t)
    ensures AllBlank(Indented(st, t, shift))
  {
  }

  /** Text that follows a line break and holds none is the last line. */
  lemma AfterLineBreak(st: TabsAndIndentsStyle, head: string, t: string)
    requires |head| > 0 && head[|head| - 1] == '\n'
    requires AllBlank(t)
    ensures Width(st, head + t) == Columns(st, t)
  {
    WidthAppendSameLine(st, head, t);
    assert head == head[..|head| - 1] + ['\n'];
    WidthSnoc(st, head[..|head| - 1], '\n');
  }

  // ---------------------------------------------------------------------------
  // Indent types and the visitSpace decision

  const IndentTypeKey := "indentType"
  const LastIndentKey := "lastIndent"
  const LastLocationKey := "lastLocation"
  const AfterAnnotationKey := "afterAnnotation"

  /** preVisit: the indent type a node gives the elements below it. */
  function PreVisitIndentType(kind: NodeKind): (r: IndentType)
    ensures r == Align <==> kind in {CompilationUnit, Package, Import, Label, DoWhileLoop, ArrayDimension,
                                     ClassDeclaration}
    ensures r == Indent <==> kind in {Block, If, Else, ForLoop, ForEachLoop, WhileLoop, Case, EnumValueSet}
  {
    match kind
    case CompilationUnit | Package | Import | Label | DoWhileLoop | ArrayDimension | ClassDeclaration => Align
    case Block | If | Else | ForLoop | ForEachLoop | WhileLoop | Case | EnumValueSet => Indent
    case _ => ContinuationIndent
  }

  method PreVisit(cursor: Cursor, tree: Value)
    requires tree.Node? && |cursor.frames| > 0
    modifies cursor
    ensures cursor.frames == PutAt(old(cursor.frames), 0, IndentTypeKey, IndentTypeMessage(PreVisitIndentType(tree.kind)))
  {
    var t := PreVisitIndentType(tree.kind);
    cursor.PutMessageAt(0, IndentTypeKey, IndentTypeMessage(t));
  }

  /** The columns an indent type adds to the enclosing indent. */
  function Delta(st: TabsAndIndentsStyle, t: IndentType): (d: int)
  {
    match t
    case Align => 0
    case Indent => st.indentSize
    case ContinuationIndent => st.continuationIndent
  }

  /** The locations whose space is always aligned with the parent. */
  predicate AlignsToParent(loc: Location)
  {
    loc in {BlockEnd, NewArrayInitializerSuffix, CatchPrefix, TryFinally, ElsePrefix}
  }

  /**
   * The indent type visitSpace settles on: an extends clause on its own line,
   * or any space following one, is continuation-indented, and then the
   * always-aligned locations, a block prefix aligned to its parent and a
   * declaration part following an annotation on its own line override that
   * with ALIGN.
   */
  function DecideIndentType(inherited: IndentType, loc: Location, whitespaceHasNewline: bool,
                            parentAfterExtends: bool, alignBlockPrefix: bool, alignToAnnotation: bool)
    : (r: IndentType)
    ensures AlignsToParent(loc) || alignBlockPrefix || alignToAnnotation ==> r == Align
    ensures (!(AlignsToParent(loc) || alignBlockPrefix || alignToAnnotation)
             && ((loc == Extends && whitespaceHasNewline) || parentAfterExtends)) ==> r == ContinuationIndent
    ensures (!(AlignsToParent(loc) || alignBlockPrefix || alignToAnnotation)
             && !((loc == Extends && whitespaceHasNewline) || parentAfterExtends)) ==> r == inherited
  {
    var t := if (loc == Extends && whitespaceHasNewline) || parentAfterExtends then ContinuationIndent else inherited;
    if AlignsToParent(loc) || alignBlockPrefix || alignToAnnotation then Align else t
  }

  /** The nearest frame holding a J tree node. */
  function FirstNode(frames: seq<Frame>): (r: Option<nat>)
    ensures r.Some? ==> r.value < |frames| && frames[r.value].value.Node?
    ensures r.None? ==> forall i :: 0 <= i < |frames| ==> !frames[i].value.Node?
    decreases |frames|
  {
    if frames == [] then None
    else if frames[0].value.Node? then Some(0)
    else
      var r := FirstNode(frames[1..]);
      if r.Some? then Some(r.value + 1) else None
  }

  function IntOr(m: Option<Message>, d: int): int
  {
    if m.Some? && m.value.IntMessage? then m.value.n else d
  }

  function IndentTypeOr(m: Option<Message>, d: IndentType): IndentType
  {
    if m.Some? && m.value.IndentTypeMessage? then m.value.indentType else d
  }

  /**
   * What visitSpace needs of the cursor: below an annotation a grandparent to
   * note afterAnnotation on, and for a block prefix on its own line some J
   * ancestor (getParentOrThrow and dropParentUntil throw otherwise).
   */
  predicate VisitSpaceDefined(frames: seq<Frame>, space: Space, loc: Location)
  {
    |frames| > 0
    && (|frames| > 1 && IsNode(frames[1].value, Annotation) ==> |frames| > 2)
    && (|frames| > 1 && loc == BlockPrefix && HasNewline(space.whitespace) && IsNode(frames[0].value, Block)
        ==> FirstNode(frames[1..]).Some?)
  }

  /** Two chains whose frames hold the same values have their first J node at the same place. */
  lemma {:induction false} FirstNodeSameValues(a: seq<Frame>, b: seq<Frame>)
    requires |a| == |b| && forall j :: 0 <= j < |a| ==> a[j].value == b[j].value
    ensures FirstNode(a) == FirstNode(b)
    decreases |a|
  {
    if a != [] {
      FirstNodeSameValues(a[1..], b[1..]);
    }
  }

  /** The frames after visitSpace's first message updates, and whether the space aligns to an annotation. */
  datatype Noted = Noted(frames: seq<Frame>, alignToAnnotation: bool)

  /**
   * The message updates at the head of visitSpace: lastLocation on the current
   * frame; then below an annotation, afterAnnotation on the grandparent; and
   * outside any annotation, afterAnnotation polled, its presence meaning that
   * this space follows annotations on their own line.
   */
  function NoteLocation(frames: seq<Frame>, loc: Location): (r: Noted)
    requires |frames| > 0 && (|frames| > 1 && IsNode(frames[1].value, Annotation) ==> |frames| > 2)
    ensures |r.frames| == |frames| && forall j :: 0 <= j < |frames| ==> r.frames[j].value == frames[j].value
    ensures r.alignToAnnotation <==>
      |frames| > 1 && FirstEnclosing(frames[1..], Annotation).None?
      && exists i :: 0 <= i < |frames| && AfterAnnotationKey in frames[i].messages
  {
    var f1 := PutAt(frames, 0, LastLocationKey, LocationMessage(loc));
    var hasParent := |frames| > 1;
    if hasParent && IsNode(frames[1].value, Annotation) then
      Noted(PutAt(f1, 2, AfterAnnotationKey, BoolMessage(true)), false)
    else if hasParent && FirstEnclosing(frames[1..], Annotation).None? then
      assert forall i :: 0 <= i < |frames| ==> (AfterAnnotationKey in f1[i].messages <==> AfterAnnotationKey in frames[i].messages);
      Noted(RemoveNearest(f1, AfterAnnotationKey), NearestMessage(f1, AfterAnnotationKey).Some?)
    else
      Noted(f1, false)
  }

  /** The messages under every other key are those the chain held before. */
  lemma NoteLocationKeepsOthers(frames: seq<Frame>, loc: Location, key: string, i: nat)
    requires |frames| > 0 && (|frames| > 1 && IsNode(frames[1].value, Annotation) ==> |frames| > 2)
    requires key != LastLocationKey && key != AfterAnnotationKey && i < |frames|
    ensures key in NoteLocation(frames, loc).frames[i].messages <==> key in frames[i].messages
    ensures key in frames[i].messages ==> NoteLocation(frames, loc).frames[i].messages[key] == frames[i].messages[key]
  {
    var f1 := PutAt(frames, 0, LastLocationKey, LocationMessage(loc));
    assert key in f1[i].messages <==> key in frames[i].messages;
    assert key in frames[i].messages ==> f1[i].messages[key] == frames[i].messages[key];
    var hasParent := |frames| > 1;
    if hasParent && IsNode(frames[1].value, Annotation) {
      var f2 := PutAt(f1, 2, AfterAnnotationKey, BoolMessage(true));
      assert NoteLocation(frames, loc).frames == f2;
      assert key in f2[i].messages <==> key in f1[i].messages;
    } else if hasParent && FirstEnclosing(frames[1..], Annotation).None? {
      var f2 := RemoveNearest(f1, AfterAnnotationKey);
      assert NoteLocation(frames, loc).frames == f2;
      assert key in f2[i].messages <==> key in f1[i].messages;
    } else {
      assert NoteLocation(frames, loc).frames == f1;
    }
  }

  /**
   * The indent visitSpace indents to, on the frames after its first message
   * updates: the nearest lastIndent (0 without one) plus what the indent type
   * adds.
   */
  function SpaceIndent(st: TabsAndIndentsStyle, f: seq<Frame>, space: Space, loc: Location, alignToAnnotation: bool)
    : (indent: int)
    requires |f| > 1
    requires loc == BlockPrefix && HasNewline(space.whitespace) && IsNode(f[0].value, Block) ==> FirstNode(f[1..]).Some?
    ensures AlignsToParent(loc) || alignToAnnotation ==> indent == IntOr(NearestMessage(f, LastIndentKey), 0)
  {
    var base := IntOr(NearestMessage(f, LastIndentKey), 0);
    var inherited := IndentTypeOr(NearestMessage(f[1..], IndentTypeKey), Align);
    var alignBlockPrefix := loc == BlockPrefix && HasNewline(space.whitespace) && IsNode(f[0].value, Block)
                            && !IsNode(f[FirstNode(f[1..]).value + 1].value, Block);
    var parentAfterExtends := LastLocationKey in f[1].messages
                              && f[1].messages[LastLocationKey] == LocationMessage(Extends);
    base + Delta(st, DecideIndentType(inherited, loc, HasNewline(space.whitespace), parentAfterExtends,
                                      alignBlockPrefix, alignToAnnotation))
  }

  datatype SpaceVisit = SpaceVisit(frames: seq<Frame>, space: Space)

  /** The frames after visitSpace's message updates and the space it returns. */
  function VisitSpaceSpec(st: TabsAndIndentsStyle, h: Helpers, frames: seq<Frame>, space: Space, loc: Location)
    : (r: SpaceVisit)
    requires ShiftDefined(st) && VisitSpaceDefined(frames, space, loc)
    ensures |r.frames| == |frames|
  {
    var noted := NoteLocation(frames, loc);
    var f := noted.frames;
    if (space.comments == [] && !HasNewline(LastWhitespace(space))) || |frames| <= 1 then SpaceVisit(f, space)
    else
      FirstNodeSameValues(f[1..], frames[1..]);
      var indent := SpaceIndent(st, f, space, loc, noted.alignToAnnotation);
      var f3 := if frames[0].value.LeftPadded? || IsNode(frames[0].value, EnumValueSet) then f
                else PutAt(f, 0, LastIndentKey, IntMessage(indent));
      SpaceVisit(f3, IndentToSpec(st, h, space, indent, loc))
  }

  /** The head of visitSpace: the lastLocation and afterAnnotation messages. */
  method NoteLocationOn(cursor: Cursor, loc: Location) returns (alignToAnnotation: bool)
    requires |cursor.frames| > 0
    requires |cursor.frames| > 1 && IsNode(cursor.frames[1].value, Annotation) ==> |cursor.frames| > 2
    modifies cursor
    ensures cursor.frames == NoteLocation(old(cursor.frames), loc).frames
    ensures alignToAnnotation == NoteLocation(old(cursor.frames), loc).alignToAnnotation
  {
    ghost var frames := cursor.frames;
    cursor.PutMessageAt(0, LastLocationKey, LocationMessage(loc));
    alignToAnnotation := false;
    var hasParent := |cursor.frames| > 1;
    if hasParent && IsNode(cursor.frames[1].value, Annotation) {
      cursor.PutMessageAt(2, AfterAnnotationKey, BoolMessage(true));
    } else if hasParent && FirstEnclosing(cursor.frames[1..], Annotation).None? {
      assert frames[1..] == cursor.frames[1..];
      var m := cursor.PollNearestMessage(AfterAnnotationKey);
      alignToAnnotation := m.Some?;
    } else if hasParent {
      assert frames[1..] == cursor.frames[1..];
    }
  }

  /** The indent computation of visitSpace, on the cursor after its first message updates. */
  method IndentOf(st: TabsAndIndentsStyle, cursor: Cursor, ancestor: Option<nat>, space: Space, loc: Location,
                  alignToAnnotation: bool) returns (indent: int)
    requires |cursor.frames| > 1 && ancestor == FirstNode(cursor.frames[1..])
    requires loc == BlockPrefix && HasNewline(space.whitespace) && IsNode(cursor.frames[0].value, Block)
             ==> ancestor.Some?
    ensures indent == SpaceIndent(st, cursor.frames, space, loc, alignToAnnotation)
  {
    indent := IntOr(NearestMessage(cursor.frames, LastIndentKey), 0);
    var indentType := IndentTypeOr(NearestMessage(cursor.frames[1..], IndentTypeKey), Align);
    var alignBlockPrefixToParent := loc == BlockPrefix && HasNewline(space.whitespace)
      && IsNode(cursor.frames[0].value, Block)
      && !IsNode(cursor.frames[ancestor.value + 1].value, Block);
    if (loc == Extends && HasNewline(space.whitespace))
       || (LastLocationKey in cursor.frames[1].messages
           && cursor.frames[1].messages[LastLocationKey] == LocationMessage(Extends)) {
      indentType := ContinuationIndent;
    }
    if alignBlockPrefixToParent || AlignsToParent(loc) || alignToAnnotation {
      indentType := Align;
    }
    indent := indent + Delta(st, indentType);
  }

  method VisitSpace(st: TabsAndIndentsStyle, h: Helpers, cursor: Cursor, space: Space, loc: Location)
    returns (r: Space)
    requires ShiftDefined(st) && VisitSpaceDefined(cursor.frames, space, loc)
    modifies cursor
    ensures cursor.frames == VisitSpaceSpec(st, h, old(cursor.frames), space, loc).frames
    ensures r == VisitSpaceSpec(st, h, old(cursor.frames), space, loc).space
  {
    ghost var frames := cursor.frames;
    var alignToAnnotation := NoteLocationOn(cursor, loc);
    if (space.comments == [] && !HasNewline(LastWhitespace(space))) || |cursor.frames| <= 1 {
      return space;
    }
    FirstNodeSameValues(cursor.frames[1..], frames[1..]);
    var ancestor := FirstNode(cursor.frames[1..]);
    var indent := IndentOf(st, cursor, ancestor, space, loc, alignToAnnotation);
    r := IndentTo(st, h, space, indent, loc);
    if !cursor.frames[0].value.LeftPadded? && !IsNode(cursor.frames[0].value, EnumValueSet) {
      cursor.PutMessageAt(0, LastIndentKey, IntMessage(indent));
    }
  }

  /** visitSpace leaves a space with no comments and no line break as it is. */
  lemma VisitSpaceKeepsSameLineSpace(st: TabsAndIndentsStyle, h: Helpers, frames: seq<Frame>, space: Space,
                                     loc: Location)
    requires ShiftDefined(st) && VisitSpaceDefined(frames, space, loc)
    requires space.comments == [] && !HasNewline(space.whitespace)
    ensures VisitSpaceSpec(st, h, frames, space, loc).space == space
  {
  }

  /**
   * At the always-aligned locations the space is indented to the enclosing
   * indent itself (lastIndent, or 0), whatever indent type is inherited and
   * whether or not an extends clause precedes.
   */
  lemma VisitSpaceAlignsToParent(st: TabsAndIndentsStyle, h: Helpers, frames: seq<Frame>, space: Space,
                                 loc: Location)
    requires ShiftDefined(st) && VisitSpaceDefined(frames, space, loc)
    requires AlignsToParent(loc) && |frames| > 1 && (space.comments != [] || HasNewline(LastWhitespace(space)))
    ensures exists base: int :: VisitSpaceSpec(st, h, frames, space, loc).space == IndentToSpec(st, h, space, base, loc)
                                && (base == 0 || exists i :: 0 <= i < |frames| && LastIndentKey in frames[i].messages
                                                            && frames[i].messages[LastIndentKey] == IntMessage(base))
  {
    var f := NoteLocation(frames, loc).frames;
    var m := NearestMessage(f, LastIndentKey);
    var base := IntOr(m, 0);
    assert VisitSpaceSpec(st, h, frames, space, loc).space == IndentToSpec(st, h, space, base, loc);
    if m.Some? && m.value.IntMessage? {
      var i :| 0 <= i < |f| && LastIndentKey in f[i].messages && f[i].messages[LastIndentKey] == m.value;
      assert |LastIndentKey| != |LastLocationKey| && |LastIndentKey| != |AfterAnnotationKey|;
      NoteLocationKeepsOthers(frames, loc, LastIndentKey, i);
      assert LastIndentKey in frames[i].messages && frames[i].messages[LastIndentKey] == IntMessage(base);
    }
  }
}
