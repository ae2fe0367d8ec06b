/**
 * The interning tables behind the JavaType factories: Class.flyweights (a
 * name mapped to the class variants registered under it), the two-level
 * buckets of Variable.build and Method.build, and the identity-keyed type
 * trie of Parameterized.build, all over the arena of `JavaTypes`.
 *
 * Iteration over the source's hash sets is taken in insertion order, so
 * "the first variant" is the earliest one registered.
 */
module TypeRegistry {
  import opened Wrappers
  import opened JavaTypes

  // ---------------------------------------------------------------------------
  // Member order of buildCandidate: comparing(Variable::getName)

  /** The UTF-16 code units of one character: itself, or its surrogate pair above the Basic Multilingual Plane. */
  function CodeUnits(c: char): (r: seq<int>)
    ensures 1 <= |r| <= 2 && forall k :: 0 <= k < |r| ==> 0 <= r[k] < 0x1_0000
  {
    var v := c as int;
    if v < 0x1_0000 then [v]
    else [0xD800 + (v - 0x1_0000) / 0x400, 0xDC00 + (v - 0x1_0000) % 0x400]
  }

  /** The string as Java holds it: its UTF-16 code units. */
  function Utf16(s: string): seq<int>
  {
    if s == [] then [] else CodeUnits(s[0]) + Utf16(s[1..])
  }

  /** Lexicographic order on code units, a proper prefix first. */
  predicate UnitsLe(s: seq<int>, t: seq<int>)
    decreases |s|
  {
    s == [] || (t != [] && (s[0] < t[0] || (s[0] == t[0] && UnitsLe(s[1..], t[1..]))))
  }

  /** `s.compareTo(t) <= 0`: String.compareTo compares UTF-16 code units. */
  predicate NameLe(s: string, t: string)
  {
    UnitsLe(Utf16(s), Utf16(t))
  }

  lemma {:induction false} UnitsLeTotal(s: seq<int>, t: seq<int>)
    ensures UnitsLe(s, t) || UnitsLe(t, s)
    decreases |s|
  {
    if s != [] && t != [] && s[0] == t[0] {
      UnitsLeTotal(s[1..], t[1..]);
    }
  }

  lemma {:induction false} UnitsLeTrans(s: seq<int>, t: seq<int>, u: seq<int>)
    requires UnitsLe(s, t) && UnitsLe(t, u)
    ensures UnitsLe(s, u)
    decreases |s|
  {
    if s != [] && t != [] && u != [] && s[0] == t[0] && t[0] == u[0] {
      UnitsLeTrans(s[1..], t[1..], u[1..]);
    }
  }

  lemma NameLeTotal(s: string, t: string)
    ensures NameLe(s, t) || NameLe(t, s)
  {
    UnitsLeTotal(Utf16(s), Utf16(t));
  }

  lemma NameLeTrans(s: string, t: string, u: string)
    requires NameLe(s, t) && NameLe(t, u)
    ensures NameLe(s, u)
  {
    UnitsLeTrans(Utf16(s), Utf16(t), Utf16(u));
  }

  /**
   * Above the Basic Multilingual Plane the code-unit order is not the
   * character order: MATHEMATICAL BOLD CAPITAL A (U+1D400) starts with the
   * unit 0xD835 and so sorts before FULLWIDTH LATIN CAPITAL LETTER A (U+FF21).
   */
  lemma SurrogateSortsFirst()
    ensures NameLe("\U{1D400}", "\U{FF21}") && !NameLe("\U{FF21}", "\U{1D400}")
    ensures "\U{FF21}"[0] < "\U{1D400}"[0]
  {
    assert Utf16("\U{1D400}") == [0xD835, 0xDC00];
    assert Utf16("\U{FF21}") == [0xFF21];
  }

  /** Variable.getName of a member reference. */
  function MemberName(a: seq<Desc>, m: Ref): string
  {
    if m < |a| && a[m].Variable? then a[m].name else ""
  }

  predicate SortedByName(a: seq<Desc>, ms: seq<Ref>)
    requires AllBelow(ms, |a|)
  {
    forall i, j :: 0 <= i < j < |ms| ==> NameLe(MemberName(a, ms[i]), MemberName(a, ms[j]))
  }

  /** Insert `x` after every element whose name is not greater: the step of a stable sort. */
  function InsertByName(a: seq<Desc>, s: seq<Ref>, x: Ref): (r: seq<Ref>)
    requires AllBelow(s, |a|) && x < |a|
    ensures multiset(r) == multiset(s) + multiset{x}
    ensures AllBelow(r, |a|)
  {
    if s == [] then [x]
    else if !NameLe(MemberName(a, s[0]), MemberName(a, x)) then [x] + s
    else
      assert s == [s[0]] + s[1..];
      [s[0]] + InsertByName(a, s[1..], x)
  }

  lemma {:induction false} InsertByNameSorted(a: seq<Desc>, s: seq<Ref>, x: Ref)
    requires AllBelow(s, |a|) && x < |a| && SortedByName(a, s)
    ensures SortedByName(a, InsertByName(a, s, x))
    decreases |s|
  {
    if s != [] {
      if !NameLe(MemberName(a, s[0]), MemberName(a, x)) {
        InsertInFrontSorted(a, s, x);
      } else {
        InsertByNameSorted(a, s[1..], x);
        InsertBehindSorted(a, s, x);
      }
    }
  }

  /** An element ordered before the head of a sorted list keeps it sorted when put in front. */
  lemma InsertInFrontSorted(a: seq<Desc>, s: seq<Ref>, x: Ref)
    requires AllBelow(s, |a|) && x < |a| && SortedByName(a, s) && s != []
    requires !NameLe(MemberName(a, s[0]), MemberName(a, x))
    ensures SortedByName(a, [x] + s)
  {
    NameLeTotal(MemberName(a, s[0]), MemberName(a, x));
    forall k | 0 <= k < |s| ensures NameLe(MemberName(a, x), MemberName(a, s[k])) {
      if k > 0 {
        NameLeTrans(MemberName(a, x), MemberName(a, s[0]), MemberName(a, s[k]));
      }
    }
    ConsSorted(a, x, s);
  }

  /** The head, not greater than `x`, stays in front of the sorted insertion into the rest. */
  lemma InsertBehindSorted(a: seq<Desc>, s: seq<Ref>, x: Ref)
    requires AllBelow(s, |a|) && x < |a| && SortedByName(a, s) && s != []
    requires NameLe(MemberName(a, s[0]), MemberName(a, x))
    requires SortedByName(a, InsertByName(a, s[1..], x))
    ensures SortedByName(a, [s[0]] + InsertByName(a, s[1..], x))
  {
    var rest := InsertByName(a, s[1..], x);
    HeadBeforeInserted(a, s, x);
    forall k | 0 <= k < |rest| ensures NameLe(MemberName(a, s[0]), MemberName(a, rest[k])) {
      assert rest[k] in rest;
    }
    ConsSorted(a, s[0], rest);
  }

  /** A sorted list stays sorted with an element in front that is not greater than any of it. */
  lemma ConsSorted(a: seq<Desc>, x: Ref, rest: seq<Ref>)
    requires x < |a| && AllBelow(rest, |a|) && SortedByName(a, rest)
    requires forall k :: 0 <= k < |rest| ==> NameLe(MemberName(a, x), MemberName(a, rest[k]))
    ensures SortedByName(a, [x] + rest)
  {
    var r := [x] + rest;
    forall i, j | 0 <= i < j < |r| ensures NameLe(MemberName(a, r[i]), MemberName(a, r[j])) {
      assert r[j] == rest[j - 1];
      if i > 0 {
        assert r[i] == rest[i - 1];
      }
    }
  }

  /** Every element of the insertion into the rest of a sorted list comes after its head. */
  lemma HeadBeforeInserted(a: seq<Desc>, s: seq<Ref>, x: Ref)
    requires AllBelow(s, |a|) && x < |a| && SortedByName(a, s) && s != []
    requires NameLe(MemberName(a, s[0]), MemberName(a, x))
    ensures forall y :: y in InsertByName(a, s[1..], x) ==> NameLe(MemberName(a, s[0]), MemberName(a, y))
  {
    var rest := InsertByName(a, s[1..], x);
    forall y | y in rest ensures NameLe(MemberName(a, s[0]), MemberName(a, y)) {
      assert y in multiset(rest);
      if y != x {
        assert y in multiset(s[1..]);
        var q :| 0 <= q < |s[1..]| && s[1..][q] == y;
        assert s[q + 1] == y;
      }
    }
  }

  /** List.sort with comparing(Variable::getName): a stable sort, here insertion sort. */
  function SortByName(a: seq<Desc>, xs: seq<Ref>): (r: seq<Ref>)
    requires AllBelow(xs, |a|)
    ensures multiset(r) == multiset(xs)
    ensures AllBelow(r, |a|)
    decreases |xs|
  {
    if xs == [] then []
    else
      assert xs == xs[..|xs| - 1] + [xs[|xs| - 1]];
      InsertByName(a, SortByName(a, xs[..|xs| - 1]), xs[|xs| - 1])
  }

  lemma {:induction false} SortByNameSorted(a: seq<Desc>, xs: seq<Ref>)
    requires AllBelow(xs, |a|)
    ensures SortedByName(a, SortByName(a, xs))
    decreases |xs|
  {
    if xs != [] {
      SortByNameSorted(a, xs[..|xs| - 1]);
      InsertByNameSorted(a, SortByName(a, xs[..|xs| - 1]), xs[|xs| - 1]);
    }
  }

  const SerialPersistentFields: string := "serialPersistentFields"

  /** The members buildCandidate keeps for `java.lang.String`: all but those named serialPersistentFields. */
  function DropSerialPersistentFields(a: seq<Desc>, ms: seq<Ref>): seq<Ref>
    decreases |ms|
  {
    if ms == [] then []
    else
      (if MemberName(a, ms[0]) == SerialPersistentFields then [] else [ms[0]]) + DropSerialPersistentFields(a, ms[1..])
  }

  /** The filter drops exactly the members named serialPersistentFields. */
  lemma DropSerialPersistentFieldsShape(a: seq<Desc>, ms: seq<Ref>)
    ensures forall k :: 0 <= k < |DropSerialPersistentFields(a, ms)| ==>
      MemberName(a, DropSerialPersistentFields(a, ms)[k]) != SerialPersistentFields
    ensures forall k :: 0 <= k < |ms| && MemberName(a, ms[k]) != SerialPersistentFields ==>
      ms[k] in DropSerialPersistentFields(a, ms)
    ensures multiset(DropSerialPersistentFields(a, ms)) <= multiset(ms)
    ensures AllBelow(ms, |a|) ==> AllBelow(DropSerialPersistentFields(a, ms), |a|)
  {
    DropKeepsNoSerial(a, ms);
    DropKeepsOthers(a, ms);
    DropSubMultiset(a, ms);
    var r := DropSerialPersistentFields(a, ms);
    if AllBelow(ms, |a|) {
      forall k | 0 <= k < |r| ensures r[k] < |a| {
        assert r[k] in multiset(ms);
      }
    }
  }

  lemma {:induction false} DropKeepsNoSerial(a: seq<Desc>, ms: seq<Ref>)
    ensures forall k :: 0 <= k < |DropSerialPersistentFields(a, ms)| ==>
      MemberName(a, DropSerialPersistentFields(a, ms)[k]) != SerialPersistentFields
    decreases |ms|
  {
    if ms != [] {
      DropKeepsNoSerial(a, ms[1..]);
      var x: seq<Ref> := if MemberName(a, ms[0]) == SerialPersistentFields then [] else [ms[0]];
      var rest := DropSerialPersistentFields(a, ms[1..]);
      assert DropSerialPersistentFields(a, ms) == x + rest;
      forall k | 0 <= k < |x + rest| ensures MemberName(a, (x + rest)[k]) != SerialPersistentFields {
        if k >= |x| {
          assert (x + rest)[k] == rest[k - |x|];
        } else {
          assert (x + rest)[k] == ms[0];
        }
      }
    }
  }

  lemma {:induction false} DropKeepsOthers(a: seq<Desc>, ms: seq<Ref>)
    ensures forall k :: 0 <= k < |ms| && MemberName(a, ms[k]) != SerialPersistentFields ==>
      ms[k] in DropSerialPersistentFields(a, ms)
    decreases |ms|
  {
    if ms != [] {
      DropKeepsOthers(a, ms[1..]);
      assert forall k :: 1 <= k < |ms| ==> ms[k] == ms[1..][k - 1];
    }
  }

  lemma {:induction false} DropSubMultiset(a: seq<Desc>, ms: seq<Ref>)
    ensures multiset(DropSerialPersistentFields(a, ms)) <= multiset(ms)
    decreases |ms|
  {
    if ms != [] {
      DropSubMultiset(a, ms[1..]);
      assert ms == [ms[0]] + ms[1..];
    }
  }

  /** The member list buildCandidate stores: an empty list as given, otherwise filtered (for String) and sorted. */
  function StoredMembers(a: seq<Desc>, fqn: string, ms: seq<Ref>): (r: seq<Ref>)
    requires AllBelow(ms, |a|)
    ensures AllBelow(r, |a|) && multiset(r) <= multiset(ms)
  {
    if ms == [] then ms
    else if fqn == "java.lang.String" then
      DropSerialPersistentFieldsShape(a, ms);
      SortByName(a, DropSerialPersistentFields(a, ms))
    else SortByName(a, ms)
  }

  /** The stored member list is ordered by name. */
  lemma StoredMembersSorted(a: seq<Desc>, fqn: string, ms: seq<Ref>)
    requires AllBelow(ms, |a|)
    ensures SortedByName(a, StoredMembers(a, fqn, ms))
  {
    if ms != [] {
      if fqn == "java.lang.String" {
        DropSerialPersistentFieldsShape(a, ms);
        SortByNameSorted(a, DropSerialPersistentFields(a, ms));
      } else {
        SortByNameSorted(a, ms);
      }
    }
  }

  /** For any class but String the stored members are a permutation of the given ones. */
  lemma StoredMembersPermutation(a: seq<Desc>, fqn: string, ms: seq<Ref>)
    requires AllBelow(ms, |a|) && fqn != "java.lang.String"
    ensures multiset(StoredMembers(a, fqn, ms)) == multiset(ms)
  {
  }

  /** For String exactly the members named serialPersistentFields are dropped. */
  lemma StringMembersDropSerialPersistentFields(a: seq<Desc>, ms: seq<Ref>)
    requires AllBelow(ms, |a|)
    ensures var r := StoredMembers(a, "java.lang.String", ms);
      && (forall m :: m in r ==> MemberName(a, m) != SerialPersistentFields)
      && (forall m :: m in ms && MemberName(a, m) != SerialPersistentFields ==> m in r)
  {
    var r := StoredMembers(a, "java.lang.String", ms);
    if ms != [] {
      var kept := DropSerialPersistentFields(a, ms);
      DropSerialPersistentFieldsShape(a, ms);
      forall m | m in r ensures MemberName(a, m) != SerialPersistentFields {
        assert m in multiset(kept);
        var k :| 0 <= k < |kept| && kept[k] == m;
      }
      forall m | m in ms && MemberName(a, m) != SerialPersistentFields ensures m in r {
        var k :| 0 <= k < |ms| && ms[k] == m;
        assert m in kept;
        assert m in multiset(r);
      }
    }
  }

  /** Filtering a concatenation filters each part. */
  lemma {:induction false} DropAppend(a: seq<Desc>, p: seq<Ref>, q: seq<Ref>)
    ensures DropSerialPersistentFields(a, p + q) == DropSerialPersistentFields(a, p) + DropSerialPersistentFields(a, q)
    decreases |p|
  {
    if p != [] {
      DropAppend(a, p[1..], q);
      assert (p + q)[0] == p[0] && (p + q)[1..] == p[1..] + q;
    } else {
      assert p + q == q;
    }
  }

  lemma DropPrefixStep(a: seq<Desc>, ms: seq<Ref>, i: nat)
    requires i < |ms|
    ensures DropSerialPersistentFields(a, ms[..i + 1]) ==
      DropSerialPersistentFields(a, ms[..i]) + (if MemberName(a, ms[i]) == SerialPersistentFields then [] else [ms[i]])
  {
    assert ms[..i + 1] == ms[..i] + [ms[i]];
    DropAppend(a, ms[..i], [ms[i]]);
    assert DropSerialPersistentFields(a, [ms[i]][1..]) == [];
  }

  /** The filtering loop buildCandidate runs for `java.lang.String`. */
  method DropSerialPersistentFieldsLoop(a: seq<Desc>, members: seq<Ref>) returns (kept: seq<Ref>)
    requires AllBelow(members, |a|)
    ensures kept == DropSerialPersistentFields(a, members)
  {
    kept := [];
    var i := 0;
    while i < |members|
      invariant 0 <= i <= |members|
      invariant kept == DropSerialPersistentFields(a, members[..i])
    {
      DropPrefixStep(a, members, i);
      if MemberName(a, members[i]) != SerialPersistentFields {
        kept := kept + [members[i]];
      }
      i := i + 1;
    }
    assert members[..|members|] == members;
  }

  /** `sortedMembers.sort(comparing(Variable::getName))`, realised as an insertion loop. */
  method SortByNameLoop(a: seq<Desc>, kept: seq<Ref>) returns (sorted: seq<Ref>)
    requires AllBelow(kept, |a|)
    ensures sorted == SortByName(a, kept)
  {
    sorted := [];
    var j := 0;
    while j < |kept|
      invariant 0 <= j <= |kept|
      invariant sorted == SortByName(a, kept[..j])
    {
      assert kept[..j + 1][..j] == kept[..j];
      sorted := InsertByName(a, sorted, kept[j]);
      j := j + 1;
    }
    assert kept[..|kept|] == kept;
  }

  /** buildCandidate's member handling: the filtering loop for String, then the sort. */
  method SortMembers(a: seq<Desc>, fqn: string, members: seq<Ref>) returns (sorted: seq<Ref>)
    requires AllBelow(members, |a|)
    ensures sorted == StoredMembers(a, fqn, members)
  {
    if members == [] {
      return members;
    }
    var kept := members;
    if fqn == "java.lang.String" {
      kept := DropSerialPersistentFieldsLoop(a, members);
      DropSerialPersistentFieldsShape(a, members);
    }
    sorted := SortByNameLoop(a, kept);
  }

  // ---------------------------------------------------------------------------
  // Parameterized.TypeTrieNode: an identity-keyed trie over [raw type] + arguments

  datatype Trie = Trie(children: map<Ref, Trie>, parameterized: Option<Ref>)

  const EmptyTrie: Trie := Trie(map[], None)

  /** The instance stored at the node `path` leads to, if any. */
  function TrieFind(t: Trie, path: seq<Ref>): Option<Ref>
    decreases |path|
  {
    if path == [] then t.parameterized
    else if path[0] in t.children then TrieFind(t.children[path[0]], path[1..])
    else None
  }

  /** The trie after storing `r` at the node `path` leads to, allocating missing nodes on the way. */
  function TrieStore(t: Trie, path: seq<Ref>, r: Ref): Trie
    decreases |path|
  {
    if path == [] then Trie(t.children, Some(r))
    else
      var child := if path[0] in t.children then t.children[path[0]] else EmptyTrie;
      Trie(t.children[path[0] := TrieStore(child, path[1..], r)], t.parameterized)
  }

  lemma EmptyTrieFind(path: seq<Ref>)
    ensures TrieFind(EmptyTrie, path) == None
  {
  }

  /** Storing at one path changes what is found at that path only. */
  lemma {:induction false} TrieFindStore(t: Trie, p: seq<Ref>, q: seq<Ref>, r: Ref)
    ensures TrieFind(TrieStore(t, p, r), q) == if p == q then Some(r) else TrieFind(t, q)
    decreases |p|
  {
    if p != [] && q != [] {
      var child := if p[0] in t.children then t.children[p[0]] else EmptyTrie;
      TrieFindStore(child, p[1..], q[1..], r);
      if p[0] == q[0] {
        if p[0] !in t.children { EmptyTrieFind(q[1..]); }
        if p[1..] == q[1..] { assert p == [p[0]] + p[1..] && q == [q[0]] + q[1..]; }
      }
    }
  }

  /** The trie key of `Parameterized.build(type, typeParameters)`. */
  function TriePath(raw: Ref, args: seq<Ref>): (p: seq<Ref>)
  {
    [raw] + args
  }

  /** Keys of the same raw type with the arguments in another order are different keys. */
  lemma TriePathInjective(raw: Ref, args: seq<Ref>, raw2: Ref, args2: seq<Ref>)
    ensures TriePath(raw, args) == TriePath(raw2, args2) <==> raw == raw2 && args == args2
  {
    if TriePath(raw, args) == TriePath(raw2, args2) {
      assert TriePath(raw, args)[1..] == TriePath(raw2, args2)[1..];
    }
  }

  /** Every stored instance is the Parameterized built from the path leading to it. */
  ghost predicate TrieSound(a: seq<Desc>, t: Trie)
  {
    forall p :: TrieFind(t, p).Some? ==>
      |p| >= 1 && TrieFind(t, p).value < |a| && a[TrieFind(t, p).value] == Parameterized(p[0], p[1..])
  }

  // ---------------------------------------------------------------------------
  // Bucket scans shared by the three factories

  /** `vs[k].deepEquals(d)`, the test each factory applies while iterating a bucket. */
  predicate DeepMatch(a: seq<Desc>, v: Ref, d: Desc)
    requires Acyclic(a) && v < |a| && Below(d, |a|)
  {
    DeepEqDesc(a, a[v], v, d, |a|)
  }

  /** The position of the first entry of `vs` deep-equal to `d`. */
  function FirstDeepEqual(a: seq<Desc>, vs: seq<Ref>, d: Desc): (r: Option<nat>)
    requires Acyclic(a) && AllBelow(vs, |a|) && Below(d, |a|)
    ensures r.Some? ==> r.value < |vs| && DeepMatch(a, vs[r.value], d)
    ensures r.Some? ==> forall k :: 0 <= k < r.value ==> !DeepMatch(a, vs[k], d)
    ensures r.None? ==> forall k :: 0 <= k < |vs| ==> !DeepMatch(a, vs[k], d)
    decreases |vs|
  {
    if vs == [] then None
    else if DeepMatch(a, vs[0], d) then Some(0)
    else
      var rest := FirstDeepEqual(a, vs[1..], d);
      if rest.Some? then Some(rest.value + 1) else None
  }

  /** The bucket scan of Variable.build and Method.build: the first entry deep-equal to the test object. */
  method ScanDeepEqual(a: seq<Desc>, vs: seq<Ref>, d: Desc) returns (found: Option<nat>)
    requires Acyclic(a) && AllBelow(vs, |a|) && Below(d, |a|)
    ensures found == FirstDeepEqual(a, vs, d)
  {
    var k := 0;
    while k < |vs|
      invariant 0 <= k <= |vs|
      invariant forall j :: 0 <= j < k ==> !DeepMatch(a, vs[j], d)
    {
      if DeepMatch(a, vs[k], d) {
        return Some(k);
      }
      k := k + 1;
    }
    return None;
  }

  /** Appending an object keeps every earlier verdict, and a self-deep-equal object is then found last. */
  lemma {:induction false} FirstDeepEqualAfterAdd(a: seq<Desc>, vs: seq<Ref>, d: Desc)
    requires WellFormed(a) && AllBelow(vs, |a|) && Below(d, |a|) && Acyclic(a + [d])
    requires FirstDeepEqual(a, vs, d).None? && !(d.Array? && d.elemType.None?)
    ensures FirstDeepEqual(a + [d], vs + [|a|], d) == Some(|vs|)
  {
    var a' := a + [d];
    var vs' := vs + [|a|];
    forall k | 0 <= k < |vs| ensures !DeepMatch(a', vs'[k], d) {
      assert vs'[k] == vs[k] && a'[vs[k]] == a[vs[k]];
      assert !DeepMatch(a, vs[k], d);
      DeepEqDescExtends(a, a', a[vs[k]], vs[k], d, |a|);
      DeepEqDescBounds(a', a[vs[k]], vs[k], d, |a|, vs[k], |a'|);
    }
    assert a'[|a|] == d;
    DeepEqDescRefl(a', d, |a|, |a'|);
    assert vs'[|vs|] == |a| && DeepMatch(a', vs'[|vs|], d);
  }

  /** The entry of `vs` that a bucket scan for `d` returns, if any. */
  function Interned(a: seq<Desc>, vs: seq<Ref>, d: Desc): (r: Option<Ref>)
    requires Acyclic(a) && AllBelow(vs, |a|) && Below(d, |a|)
    ensures r.Some? ==> r.value in vs && DeepMatch(a, r.value, d)
  {
    var k := FirstDeepEqual(a, vs, d);
    if k.Some? then Some(vs[k.value]) else None
  }

  // ---------------------------------------------------------------------------
  // The tables

  /** The variants registered under `n`; an absent name has none. */
  function Variants(classes: map<string, seq<Ref>>, n: string): seq<Ref>
  {
    if n in classes then classes[n] else []
  }

  /** Every variant registered under `n` is a Class of that name. */
  predicate ClassVariants(a: seq<Desc>, n: string, vs: seq<Ref>)
  {
    forall k :: 0 <= k < |vs| ==> vs[k] < |a| && a[vs[k]].Class? && a[vs[k]].fqn == n
  }

  /** Equality of two nullable map keys, as WeakHashMap compares them. */
  predicate SameKey(a: seq<Desc>, x: Option<Ref>, y: Option<Ref>)
    requires Acyclic(a) && OptBelow(x, |a|) && OptBelow(y, |a|)
  {
    if x.Some? && y.Some? then JEqRef(a, x.value, y.value) else x.None? && y.None?
  }

  /** Variable.flyweights.get(name).get(type): the registered variables with that name and an equal type. */
  function VariableBucket(a: seq<Desc>, vs: seq<Ref>, name: string, t: Option<Ref>): (b: seq<Ref>)
    requires Acyclic(a) && AllVariables(a, vs) && OptBelow(t, |a|)
    ensures AllVariables(a, b)
    ensures forall k :: 0 <= k < |b| ==> b[k] in vs && a[b[k]].name == name && SameKey(a, a[b[k]].varType, t)
    decreases |vs|
  {
    if vs == [] then []
    else
      var init := vs[..|vs| - 1];
      var last := vs[|vs| - 1];
      assert forall k :: 0 <= k < |init| ==> init[k] == vs[k];
      VariableBucket(a, init, name, t) + (if a[last].name == name && SameKey(a, a[last].varType, t) then [last] else [])
  }

  /** Method.flyweights.get(declaringType).get(name): the registered methods of an equal declaring type with that name. */
  function MethodBucket(a: seq<Desc>, ms: seq<Ref>, dt: Ref, name: string): (b: seq<Ref>)
    requires Acyclic(a) && AllMethods(a, ms) && dt < |a|
    ensures AllMethods(a, b)
    ensures forall k :: 0 <= k < |b| ==> b[k] in ms && a[b[k]].name == name && JEqRef(a, a[b[k]].declaringType, dt)
    decreases |ms|
  {
    if ms == [] then []
    else
      var init := ms[..|ms| - 1];
      var last := ms[|ms| - 1];
      assert forall k :: 0 <= k < |init| ==> init[k] == ms[k];
      MethodBucket(a, init, dt, name) + (if a[last].name == name && JEqRef(a, a[last].declaringType, dt) then [last] else [])
  }

  /** Some bucket entry is Java-equal to `d`, which makes the set's `add` a no-op. */
  predicate JavaEqualIn(a: seq<Desc>, b: seq<Ref>, d: Desc)
    requires Acyclic(a) && AllBelow(b, |a|) && Below(d, |a|)
  {
    exists k :: 0 <= k < |b| && JEqDesc(a, a[b[k]], b[k], d, |a|)
  }

  ghost predicate TablesValid(a: seq<Desc>, classes: map<string, seq<Ref>>, vars: seq<Ref>, meths: seq<Ref>, t: Trie)
  {
    && WellFormed(a)
    && (forall n :: n in classes ==> ClassVariants(a, n, classes[n]))
    && AllVariables(a, vars)
    && AllMethods(a, meths)
    && TrieSound(a, t)
  }

  /** Allocating an object that only refers to existing, correctly typed objects keeps every table valid. */
  lemma AppendKeepsTables(a: seq<Desc>, d: Desc, classes: map<string, seq<Ref>>, vars: seq<Ref>, meths: seq<Ref>, t: Trie)
    requires TablesValid(a, classes, vars, meths, t) && Below(d, |a|) && Typed(a, d)
    ensures TablesValid(a + [d], classes, vars, meths, t)
  {
    AppendWellFormed(a, d);
    var a' := a + [d];
    assert forall i :: 0 <= i < |a| ==> a'[i] == a[i];
  }

  /** Registering a variant under its own name keeps the class table valid. */
  lemma AddVariantKeepsTables(a: seq<Desc>, d: Desc, classes: map<string, seq<Ref>>, vars: seq<Ref>, meths: seq<Ref>, t: Trie)
    requires TablesValid(a, classes, vars, meths, t) && Below(d, |a|) && Typed(a, d) && d.Class?
    ensures TablesValid(a + [d], classes[d.fqn := Variants(classes, d.fqn) + [|a|]], vars, meths, t)
  {
    AppendKeepsTables(a, d, classes, vars, meths, t);
    var a' := a + [d];
    assert ClassVariants(a', d.fqn, Variants(classes, d.fqn));
    assert a'[|a|] == d;
  }

  /** The bucket of a new variable is the old bucket followed by the new variable. */
  lemma {:induction false} VariableBucketAfterAdd(a: seq<Desc>, vs: seq<Ref>, d: Desc, vs': seq<Ref>)
    requires WellFormed(a) && AllVariables(a, vs) && Below(d, |a|) && d.Variable? && Acyclic(a + [d])
    requires vs' == vs + [|a|]
    ensures AllVariables(a + [d], vs')
    ensures VariableBucket(a + [d], vs', d.name, d.varType) == VariableBucket(a, vs, d.name, d.varType) + [|a|]
  {
    var a' := a + [d];
    assert a'[|a|] == d;
    assert vs'[..|vs'| - 1] == vs;
    VariableBucketExtends(a, a', vs, d.name, d.varType);
  }

  lemma {:induction false} VariableBucketExtends(a: seq<Desc>, a': seq<Desc>, vs: seq<Ref>, name: string, t: Option<Ref>)
    requires Acyclic(a) && Acyclic(a') && a <= a' && AllVariables(a, vs) && OptBelow(t, |a|)
    ensures AllVariables(a', vs)
    ensures VariableBucket(a', vs, name, t) == VariableBucket(a, vs, name, t)
    decreases |vs|
  {
    assert forall k :: 0 <= k < |vs| ==> a'[vs[k]] == a[vs[k]];
    if vs != [] {
      var last := vs[|vs| - 1];
      VariableBucketExtends(a, a', vs[..|vs| - 1], name, t);
      if a[last].varType.Some? && t.Some? {
        JEqRefExtends(a, a', a[last].varType.value, t.value);
      }
    }
  }

  /** The bucket of a new method is the old bucket followed by the new method. */
  lemma {:induction false} MethodBucketAfterAdd(a: seq<Desc>, ms: seq<Ref>, d: Desc, ms': seq<Ref>)
    requires WellFormed(a) && AllMethods(a, ms) && Below(d, |a|) && d.Method? && Acyclic(a + [d])
    requires ms' == ms + [|a|]
    ensures AllMethods(a + [d], ms')
    ensures MethodBucket(a + [d], ms', d.declaringType, d.name) == MethodBucket(a, ms, d.declaringType, d.name) + [|a|]
  {
    var a' := a + [d];
    assert a'[|a|] == d;
    assert ms'[..|ms'| - 1] == ms;
    MethodBucketExtends(a, a', ms, d.declaringType, d.name);
  }

  lemma {:induction false} MethodBucketExtends(a: seq<Desc>, a': seq<Desc>, ms: seq<Ref>, dt: Ref, name: string)
    requires Acyclic(a) && Acyclic(a') && a <= a' && AllMethods(a, ms) && dt < |a|
    ensures AllMethods(a', ms)
    ensures MethodBucket(a', ms, dt, name) == MethodBucket(a, ms, dt, name)
    decreases |ms|
  {
    assert forall k :: 0 <= k < |ms| ==> a'[ms[k]] == a[ms[k]];
    if ms != [] {
      var last := ms[|ms| - 1];
      MethodBucketExtends(a, a', ms[..|ms| - 1], dt, name);
      JEqRefExtends(a, a', a[last].declaringType, dt);
    }
  }

  /** A new variable that no bucket entry deep-equals is what the next scan of its bucket finds. */
  lemma InternedAfterVariableAdd(a: seq<Desc>, vs: seq<Ref>, d: Desc)
    requires WellFormed(a) && AllVariables(a, vs) && Below(d, |a|) && d.Variable? && Acyclic(a + [d])
    requires FirstDeepEqual(a, VariableBucket(a, vs, d.name, d.varType), d).None?
    ensures AllVariables(a + [d], vs + [|a|])
    ensures Interned(a + [d], VariableBucket(a + [d], vs + [|a|], d.name, d.varType), d) == Some(|a|)
  {
    VariableBucketAfterAdd(a, vs, d, vs + [|a|]);
    FirstDeepEqualAfterAdd(a, VariableBucket(a, vs, d.name, d.varType), d);
  }

  /** A new method that no bucket entry deep-equals is what the next scan of its bucket finds. */
  lemma InternedAfterMethodAdd(a: seq<Desc>, ms: seq<Ref>, d: Desc)
    requires WellFormed(a) && AllMethods(a, ms) && Below(d, |a|) && d.Method? && Acyclic(a + [d])
    requires FirstDeepEqual(a, MethodBucket(a, ms, d.declaringType, d.name), d).None?
    ensures AllMethods(a + [d], ms + [|a|])
    ensures Interned(a + [d], MethodBucket(a + [d], ms + [|a|], d.declaringType, d.name), d) == Some(|a|)
  {
    MethodBucketAfterAdd(a, ms, d, ms + [|a|]);
    FirstDeepEqualAfterAdd(a, MethodBucket(a, ms, d.declaringType, d.name), d);
  }

  /** The argument types Class.build demands of its callers. */
  predicate ClassArgsTyped(a: seq<Desc>, members: seq<Ref>, interfaces: seq<Ref>, methodRefs: seq<Ref>,
                           supertype: Option<Ref>, owningClass: Option<Ref>, annotations: seq<Ref>)
  {
    && AllVariables(a, members) && AllMethods(a, methodRefs) && AllFQ(a, interfaces)
    && OptFQ(a, supertype) && OptFQ(a, owningClass) && AllFQ(a, annotations)
  }

  /** The Class buildCandidate creates. */
  function Candidate(a: seq<Desc>, flags: set<Flag>, fqn: string, kind: Kind, members: seq<Ref>, interfaces: seq<Ref>,
                     methodRefs: seq<Ref>, supertype: Option<Ref>, owningClass: Option<Ref>, annotations: seq<Ref>): (d: Desc)
    requires ClassArgsTyped(a, members, interfaces, methodRefs, supertype, owningClass, annotations)
    ensures Below(d, |a|) && Typed(a, d) && d.Class? && d.fqn == fqn
  {
    var sorted := StoredMembers(a, fqn, members);
    assert AllVariables(a, sorted) by {
      forall k | 0 <= k < |sorted| ensures sorted[k] < |a| && a[sorted[k]].Variable? {
        assert sorted[k] in multiset(members);
        var j :| 0 <= j < |members| && members[j] == sorted[k];
      }
    }
    Class(flags, fqn, kind, sorted, interfaces, methodRefs, supertype, owningClass, annotations)
  }

  /**
   * The registered variant that exact Class.build returns instead of
   * registering `cand`, if any: the first deep-equal variant, or else, for a
   * candidate without supertype, a first variant that has one.
   */
  function ExactReuse(a: seq<Desc>, vs: seq<Ref>, cand: Desc): (r: Option<Ref>)
    requires cand.Class? && Acyclic(a) && ClassVariants(a, cand.fqn, vs) && Below(cand, |a|)
    ensures r.Some? ==> r.value in vs
    ensures r.None? <==>
      FirstDeepEqual(a, vs, cand).None? && (vs == [] || cand.supertype.Some? || a[vs[0]].supertype.None?)
    ensures r.Some? && !DeepMatch(a, r.value, cand) ==>
      r.value == vs[0] && cand.supertype.None? && a[vs[0]].supertype.Some?
  {
    var found := FirstDeepEqual(a, vs, cand);
    if found.Some? then Some(vs[found.value])
    else if vs != [] && cand.supertype.None? && a[vs[0]].supertype.Some? then Some(vs[0])
    else None
  }

  /** The registry: the arena of live type objects and the interning tables over it. */
  class Registry {
    var arena: seq<Desc>
    var classes: map<string, seq<Ref>>
    var variables: seq<Ref>
    var methods: seq<Ref>
    var trie: Trie

    ghost predicate Valid()
      reads this
    {
      TablesValid(arena, classes, variables, methods, trie)
    }

    /** The tables as the static initialisers leave them: Class.OBJECT is registered. */
    constructor ()
      ensures Valid()
      ensures arena == InitialArena() && classes == map[ObjectName := [OBJECT]]
      ensures variables == [] && methods == [] && trie == EmptyTrie
    {
      arena := InitialArena();
      classes := map[ObjectName := [OBJECT]];
      variables := [];
      methods := [];
      trie := EmptyTrie;
      forall p ensures TrieFind(EmptyTrie, p) == None {
        EmptyTrieFind(p);
      }
    }

    /** Class.find: the first variant registered under the name, if any. */
    method Find(fqn: string) returns (found: Option<Ref>)
      requires Valid()
      ensures found.Some? <==> Variants(classes, fqn) != []
      ensures found.Some? ==> found.value == Variants(classes, fqn)[0]
      ensures found.Some? ==> found.value < |arena| && arena[found.value].Class? && arena[found.value].fqn == fqn
    {
      var vs := Variants(classes, fqn);
      if vs == [] {
        return None;
      }
      return Some(vs[0]);
    }

    /** Registers `cand` as a new variant of its name. */
    method AddVariant(cand: Desc) returns (r: Ref)
      requires Valid() && Below(cand, |arena|) && Typed(arena, cand) && cand.Class?
      modifies this
      ensures Valid()
      ensures r == |old(arena)| && arena == old(arena) + [cand]
      ensures classes == old(classes)[cand.fqn := Variants(old(classes), cand.fqn) + [r]]
      ensures variables == old(variables) && methods == old(methods) && trie == old(trie)
      ensures r in Variants(classes, cand.fqn) && forall n :: n != cand.fqn ==> Variants(classes, n) == Variants(old(classes), n)
    {
      AddVariantKeepsTables(arena, cand, classes, variables, methods, trie);
      r := |arena|;
      arena := arena + [cand];
      classes := classes[cand.fqn := Variants(classes, cand.fqn) + [r]];
    }

    /** The exact matching of Class.build for an already built candidate. */
    method BuildExact(cand: Desc) returns (r: Ref)
      requires Valid() && cand.Class? && Below(cand, |arena|) && Typed(arena, cand)
      modifies this
      ensures Valid()
      ensures variables == old(variables) && methods == old(methods) && trie == old(trie)
      ensures old(arena) <= arena && r in Variants(classes, cand.fqn)
      ensures forall n :: n != cand.fqn ==> Variants(classes, n) == Variants(old(classes), n)
      ensures var reuse := ExactReuse(old(arena), Variants(old(classes), cand.fqn), cand);
        if reuse.Some? then r == reuse.value && arena == old(arena) && classes == old(classes)
        else (r == |old(arena)| && arena == old(arena) + [cand]
              && classes == old(classes)[cand.fqn := Variants(old(classes), cand.fqn) + [r]])
    {
      var vs := Variants(classes, cand.fqn);
      var found := ScanDeepEqual(arena, vs, cand);
      if found.Some? {
        return vs[found.value];
      }
      // only the first variant the set yields is consulted
      if cand.supertype.None? && vs != [] && arena[vs[0]].supertype.Some? {
        return vs[0];
      }
      r := AddVariant(cand);
    }

    /**
     * The general Class.build.  Relaxed matching returns any registered
     * variant, registering the candidate only when there is none; exact
     * matching is BuildExact.
     */
    method BuildClass(flags: set<Flag>, fqn: string, kind: Kind, members: seq<Ref>, interfaces: seq<Ref>,
                      methodRefs: seq<Ref>, supertype: Option<Ref>, owningClass: Option<Ref>,
                      annotations: seq<Ref>, relaxed: bool) returns (r: Ref)
      requires Valid()
      requires ClassArgsTyped(arena, members, interfaces, methodRefs, supertype, owningClass, annotations)
      modifies this
      ensures Valid()
      ensures r < |arena| && arena[r].Class? && arena[r].fqn == fqn && r in Variants(classes, fqn)
      ensures variables == old(variables) && methods == old(methods) && trie == old(trie)
      ensures old(arena) <= arena && forall n :: n != fqn ==> Variants(classes, n) == Variants(old(classes), n)
      ensures relaxed && Variants(old(classes), fqn) != [] ==>
        r == Variants(old(classes), fqn)[0] && arena == old(arena) && classes == old(classes)
      ensures relaxed && Variants(old(classes), fqn) == [] ==>
        && r == |old(arena)| && classes == old(classes)[fqn := [r]]
        && arena == old(arena) + [Candidate(old(arena), flags, fqn, kind, members, interfaces, methodRefs,
                                            supertype, owningClass, annotations)]
      ensures !relaxed ==>
        var cand := Candidate(old(arena), flags, fqn, kind, members, interfaces, methodRefs, supertype, owningClass, annotations);
        var reuse := ExactReuse(old(arena), Variants(old(classes), fqn), cand);
        if reuse.Some? then r == reuse.value && arena == old(arena) && classes == old(classes)
        else r == |old(arena)| && arena == old(arena) + [cand] && classes == old(classes)[fqn := Variants(old(classes), fqn) + [r]]
    {
      var vs := Variants(classes, fqn);
      if relaxed && vs != [] {
        return vs[0];
      }
      ghost var c0 := Candidate(arena, flags, fqn, kind, members, interfaces, methodRefs, supertype, owningClass, annotations);
      var sortedMembers := SortMembers(arena, fqn, members);
      var cand := Class(flags, fqn, kind, sortedMembers, interfaces, methodRefs, supertype, owningClass, annotations);
      assert cand == c0;
      if relaxed {
        r := AddVariant(cand);
        assert vs + [r] == [r];
      } else {
        r := BuildExact(cand);
      }
    }

    /**
     * Class.build(String): the owning class is built first whenever a '.'
     * follows the first class-name segment, then the name is looked up
     * relaxedly and registered as a public class without members if absent.
     */
    method BuildClassByName(fqn: string) returns (r: Ref)
      requires Valid()
      modifies this
      ensures Valid()
      ensures old(arena) <= arena
      ensures r < |arena| && arena[r].Class? && arena[r].fqn == fqn && r in Variants(classes, fqn)
      ensures variables == old(variables) && methods == old(methods) && trie == old(trie)
      ensures forall n :: Variants(old(classes), n) != [] ==> Variants(classes, n) == Variants(old(classes), n)
      ensures forall n :: |n| >= |fqn| && n != fqn ==> Variants(classes, n) == Variants(old(classes), n)
      ensures Variants(old(classes), fqn) != [] ==> r == Variants(old(classes), fqn)[0]
      ensures Variants(old(classes), fqn) == [] ==>
        && r == |arena| - 1 && Variants(classes, fqn) == [r]
        && arena[r] == Class({Public}, fqn, ClassKind, [], [], [], None, arena[r].owningClass, [])
        && (arena[r].owningClass.Some? <==> OwnerName(fqn).Some?)
        && (arena[r].owningClass.Some? ==>
              arena[arena[r].owningClass.value].Class? && arena[arena[r].owningClass.value].fqn == OwnerName(fqn).value)
      decreases |fqn|
    {
      var firstClassNameIndex, lastDot := ScanClassName(fqn);
      var owningClass: Option<Ref> := None;
      if lastDot > firstClassNameIndex {
        var owner := BuildClassByName(fqn[..lastDot]);
        owningClass := Some(owner);
      }
      ghost var before := arena;
      r := BuildClass({Public}, fqn, ClassKind, [], [], [], None, owningClass, [], true);
      assert owningClass.Some? ==> arena[owningClass.value] == before[owningClass.value];
    }

    /** Class.build(String, Kind): a relaxed lookup that registers a bare class of that kind if absent. */
    method BuildClassWithKind(fqn: string, kind: Kind) returns (r: Ref)
      requires Valid()
      modifies this
      ensures Valid()
      ensures r < |arena| && arena[r].Class? && arena[r].fqn == fqn && r in Variants(classes, fqn)
      ensures variables == old(variables) && methods == old(methods) && trie == old(trie)
      ensures Variants(old(classes), fqn) != [] ==>
        r == Variants(old(classes), fqn)[0] && arena == old(arena) && classes == old(classes)
      ensures Variants(old(classes), fqn) == [] ==>
        && r == |old(arena)| && arena == old(arena) + [Class({Public}, fqn, kind, [], [], [], None, None, [])]
        && classes == old(classes)[fqn := [r]]
    {
      r := BuildClass({Public}, fqn, kind, [], [], [], None, None, [], true);
      if Variants(old(classes), fqn) == [] {
        assert Candidate(old(arena), {Public}, fqn, kind, [], [], [], None, None, [])
            == Class({Public}, fqn, kind, [], [], [], None, None, []);
      }
    }

    /** JavaType.buildType: a primitive keyword names its singleton, anything else a class. */
    method BuildType(typeName: string) returns (r: Ref)
      requires Valid()
      modifies this
      ensures Valid()
      ensures FromKeyword(typeName).Some? ==>
        r == Ordinal(FromKeyword(typeName).value) && arena[r] == PrimitiveType(FromKeyword(typeName).value)
        && arena == old(arena) && classes == old(classes)
      ensures FromKeyword(typeName).None? ==>
        r < |arena| && arena[r].Class? && arena[r].fqn == typeName
        && (Variants(old(classes), typeName) != [] ==> r == Variants(old(classes), typeName)[0])
      ensures variables == old(variables) && methods == old(methods) && trie == old(trie)
    {
      var primitive := FromKeyword(typeName);
      if primitive.Some? {
        PrimitiveRefs(arena, primitive.value);
        return Ordinal(primitive.value);
      }
      r := BuildClassByName(typeName);
    }

    /**
     * Parameterized.build: the trie path of the raw type followed by the type
     * arguments leads to the one instance for that combination, created by
     * the first call with it.
     */
    method ParameterizedBuild(raw: Ref, args: seq<Ref>) returns (r: Ref)
      requires Valid() && IsFQ(arena, raw) && AllBelow(args, |arena|)
      modifies this
      ensures Valid()
      ensures r < |arena| && arena[r] == Parameterized(raw, args)
      ensures TrieFind(trie, TriePath(raw, args)) == Some(r)
      ensures classes == old(classes) && variables == old(variables) && methods == old(methods)
      ensures TrieFind(old(trie), TriePath(raw, args)).Some? ==>
        r == TrieFind(old(trie), TriePath(raw, args)).value && arena == old(arena) && trie == old(trie)
      ensures TrieFind(old(trie), TriePath(raw, args)).None? ==>
        && r == |old(arena)| && arena == old(arena) + [Parameterized(raw, args)]
        && trie == TrieStore(old(trie), TriePath(raw, args), r)
    {
      var path := TriePath(raw, args);
      var found := TrieFind(trie, path);
      if found.Some? {
        return found.value;
      }
      var d := Parameterized(raw, args);
      AppendKeepsTables(arena, d, classes, variables, methods, trie);
      r := |arena|;
      arena := arena + [d];
      ghost var t0 := trie;
      trie := TrieStore(trie, path, r);
      forall q ensures TrieFind(trie, q) == if path == q then Some(r) else TrieFind(t0, q) {
        TrieFindStore(t0, path, q, r);
      }
    }

    /** Allocates a new variable, which joins its bucket unless `keep` is false. */
    method AddVariable(test: Desc, keep: bool) returns (r: Ref)
      requires Valid() && test.Variable? && Below(test, |arena|) && Typed(arena, test)
      requires FirstDeepEqual(arena, VariableBucket(arena, variables, test.name, test.varType), test).None?
      modifies this
      ensures Valid()
      ensures r == |old(arena)| && arena == old(arena) + [test]
      ensures variables == old(variables) + (if keep then [r] else [])
      ensures classes == old(classes) && methods == old(methods) && trie == old(trie)
      ensures keep ==> Interned(arena, VariableBucket(arena, variables, test.name, test.varType), test) == Some(r)
    {
      AppendWellFormed(arena, test);
      InternedAfterVariableAdd(arena, variables, test);
      AppendKeepsTables(arena, test, classes, variables, methods, trie);
      r := |arena|;
      arena := arena + [test];
      if keep {
        variables := variables + [r];
      }
    }

    /**
     * Variable.build: the first deep-equal variable of the (name, type)
     * bucket, or else the new variable, which the bucket keeps unless a
     * Java-equal entry is already there.
     */
    method VariableBuild(name: string, owner: Ref, varType: Option<Ref>, annotations: seq<Ref>, flags: set<Flag>)
      returns (r: Ref)
      requires Valid() && IsFQ(arena, owner) && OptBelow(varType, |arena|) && AllFQ(arena, annotations)
      modifies this
      ensures Valid()
      ensures classes == old(classes) && methods == old(methods) && trie == old(trie)
      ensures var test := Variable(name, owner, varType, annotations, flags);
        var b := VariableBucket(old(arena), old(variables), name, varType);
        var found := FirstDeepEqual(old(arena), b, test);
        if found.Some? then r == b[found.value] && arena == old(arena) && variables == old(variables)
        else
          && r == |old(arena)| && arena == old(arena) + [test]
          && variables == old(variables) + (if JavaEqualIn(old(arena), b, test) then [] else [r])
      ensures var test := Variable(name, owner, varType, annotations, flags);
        var b := VariableBucket(old(arena), old(variables), name, varType);
        FirstDeepEqual(old(arena), b, test).Some? || !JavaEqualIn(old(arena), b, test) ==>
          Interned(arena, VariableBucket(arena, variables, name, varType), test) == Some(r)
    {
      var test := Variable(name, owner, varType, annotations, flags);
      var b := VariableBucket(arena, variables, name, varType);
      var found := ScanDeepEqual(arena, b, test);
      if found.Some? {
        return b[found.value];
      }
      var clash := JavaEqualIn(arena, b, test);
      r := AddVariable(test, !clash);
    }

    /** Allocates a new method and adds it to its bucket. */
    method AddMethod(test: Desc) returns (r: Ref)
      requires Valid() && test.Method? && Below(test, |arena|) && Typed(arena, test)
      requires FirstDeepEqual(arena, MethodBucket(arena, methods, test.declaringType, test.name), test).None?
      modifies this
      ensures Valid()
      ensures r == |old(arena)| && arena == old(arena) + [test] && methods == old(methods) + [r]
      ensures classes == old(classes) && variables == old(variables) && trie == old(trie)
      ensures Interned(arena, MethodBucket(arena, methods, test.declaringType, test.name), test) == Some(r)
    {
      AppendWellFormed(arena, test);
      InternedAfterMethodAdd(arena, methods, test);
      AppendKeepsTables(arena, test, classes, variables, methods, trie);
      r := |arena|;
      arena := arena + [test];
      methods := methods + [r];
    }

    /**
     * Method.build: the first deep-equal method of the (declaring type, name)
     * bucket, or else the new method, which the identity set always keeps.
     */
    method MethodBuild(flags: set<Flag>, declaringType: Ref, name: string, genericSignature: Option<Signature>,
                       resolvedSignature: Option<Signature>, paramNames: seq<string>, thrownExceptions: seq<Ref>,
                       annotations: seq<Ref>) returns (r: Ref)
      requires Valid() && IsFQ(arena, declaringType) && AllFQ(arena, thrownExceptions) && AllFQ(arena, annotations)
      requires SigBelow(genericSignature, |arena|) && SigBelow(resolvedSignature, |arena|)
      modifies this
      ensures Valid()
      ensures classes == old(classes) && variables == old(variables) && trie == old(trie)
      ensures var test := Method(flags, declaringType, name, genericSignature, resolvedSignature, paramNames,
                                 thrownExceptions, annotations);
        var b := MethodBucket(old(arena), old(methods), declaringType, name);
        var found := FirstDeepEqual(old(arena), b, test);
        if found.Some? then r == b[found.value] && arena == old(arena) && methods == old(methods)
        else r == |old(arena)| && arena == old(arena) + [test] && methods == old(methods) + [r]
      ensures var test := Method(flags, declaringType, name, genericSignature, resolvedSignature, paramNames,
                                 thrownExceptions, annotations);
        Interned(arena, MethodBucket(arena, methods, declaringType, name), test) == Some(r)
    {
      var test := Method(flags, declaringType, name, genericSignature, resolvedSignature, paramNames,
                         thrownExceptions, annotations);
      var b := MethodBucket(arena, methods, declaringType, name);
      var found := ScanDeepEqual(arena, b, test);
      if found.Some? {
        return b[found.value];
      }
      r := AddMethod(test);
    }

    /** JavaType.clearCaches: every table is emptied; objects already handed out stay as they are. */
    method ClearCaches()
      requires Valid()
      modifies this
      ensures Valid()
      ensures arena == old(arena)
      ensures classes == map[] && variables == [] && methods == [] && trie == EmptyTrie
    {
      classes := map[];
      variables := [];
      methods := [];
      trie := EmptyTrie;
      forall p ensures TrieFind(EmptyTrie, p) == None {
        EmptyTrieFind(p);
      }
    }
  }
}
