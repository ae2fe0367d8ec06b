/**
 * The DeleteKey YAML recipe's visitMapping: the entries the key path
 * matches are dropped, and when the first entry of a mapping that is itself
 * a sequence entry goes, its prefix (the `- ` indentation and line break in
 * front of it) moves to the new first entry.
 */
module DeleteKey {
  import opened Wrappers

  /** A Yaml.Mapping.Entry: the whitespace in front of it, and the rest of it as printed. */
  datatype Entry = Entry(prefix: string, body: string)

  /** The entries that survive the filter, in their original order. */
  function Kept(entries: seq<Entry>, matches: Entry -> bool): (r: seq<Entry>)
    ensures |r| <= |entries|
  {
    if entries == [] then []
    else
      var e := entries[|entries| - 1];
      Kept(entries[..|entries| - 1], matches) + (if matches(e) then [] else [e])
  }

  /** An entry survives exactly when it is one of the entries and the key path does not match it. */
  lemma {:induction false} KeptMembers(entries: seq<Entry>, matches: Entry -> bool, e: Entry)
    ensures e in Kept(entries, matches) <==> e in entries && !matches(e)
    decreases |entries|
  {
    if entries != [] {
      var init := entries[..|entries| - 1];
      KeptMembers(init, matches, e);
      assert entries == init + [entries[|entries| - 1]];
    }
  }

  /** Filtering a concatenation filters each part: the kept entries keep their relative order. */
  lemma {:induction false} KeptConcat(xs: seq<Entry>, ys: seq<Entry>, matches: Entry -> bool)
    ensures Kept(xs + ys, matches) == Kept(xs, matches) + Kept(ys, matches)
    decreases |ys|
  {
    if ys == [] {
      assert xs + ys == xs;
    } else {
      var ys' := ys[..|ys| - 1];
      KeptConcat(xs, ys', matches);
      assert (xs + ys)[..|xs + ys| - 1] == xs + ys';
    }
  }

  /** When the key path matches nothing, the mapping is unchanged. */
  lemma {:induction false} KeptNoMatch(entries: seq<Entry>, matches: Entry -> bool)
    requires forall k :: 0 <= k < |entries| ==> !matches(entries[k])
    ensures Kept(entries, matches) == entries
    decreases |entries|
  {
    if entries != [] {
      KeptNoMatch(entries[..|entries| - 1], matches);
    }
  }

  /** The first entry is removed while the mapping is a sequence entry: its prefix is the one to hand on. */
  function HandedPrefix(entries: seq<Entry>, parentIsSequenceEntry: bool, matches: Entry -> bool): (r: Option<string>)
  {
    if |entries| > 0 && matches(entries[0]) && parentIsSequenceEntry then Some(entries[0].prefix) else None
  }

  /** The entries visitMapping leaves: the kept ones, the first of them taking a handed-on prefix. */
  function DeleteEntries(entries: seq<Entry>, parentIsSequenceEntry: bool, matches: Entry -> bool): (r: seq<Entry>)
    ensures var kept := Kept(entries, matches);
            var handed := HandedPrefix(entries, parentIsSequenceEntry, matches);
            && |r| == |kept|
            && (forall k :: 1 <= k < |r| ==> r[k] == kept[k])
            && (|r| > 0 ==> r[0].body == kept[0].body)
            && (|r| > 0 ==> r[0].prefix == if handed.Some? then handed.value else kept[0].prefix)
            && (handed.None? ==> r == kept)
  {
    var kept := Kept(entries, matches);
    var handed := HandedPrefix(entries, parentIsSequenceEntry, matches);
    if |kept| > 0 && handed.Some? then [kept[0].(prefix := handed.value)] + kept[1..] else kept
  }

  /**
   * visitMapping after the children are visited: ListUtils.map over the
   * entries with the filtering lambda, which records the handed-on prefix in
   * the `copyFirstPrefix` reference, then ListUtils.mapFirst.  It also
   * reports how many times the lambda called removeUnused (once per removed
   * entry).
   */
  method VisitMapping(entries: seq<Entry>, parentIsSequenceEntry: bool, matches: Entry -> bool)
    returns (r: seq<Entry>, removeUnusedCalls: nat)
    ensures r == DeleteEntries(entries, parentIsSequenceEntry, matches)
    ensures removeUnusedCalls == |entries| - |r|
  {
    var copyFirstPrefix: Option<string> := None;
    removeUnusedCalls := 0;
    var kept: seq<Entry> := [];
    var i := 0;
    while i < |entries|
      invariant 0 <= i <= |entries|
      invariant kept == Kept(entries[..i], matches)
      invariant copyFirstPrefix == HandedPrefix(entries[..i], parentIsSequenceEntry, matches)
      invariant removeUnusedCalls == i - |kept|
    {
      var e := entries[i];
      assert entries[..i + 1][..i] == entries[..i];
      if matches(e) {
        if i == 0 && parentIsSequenceEntry {
          copyFirstPrefix := Some(e.prefix);
        }
        removeUnusedCalls := removeUnusedCalls + 1;
      } else {
        kept := kept + [e];
      }
      i := i + 1;
    }
    assert entries[..i] == entries;
    if |kept| > 0 && copyFirstPrefix.Some? {
      kept := [kept[0].(prefix := copyFirstPrefix.value)] + kept[1..];
    }
    r := kept;
  }

  /** Removing every entry hands nothing on, even from a sequence entry. */
  lemma AllRemoved(entries: seq<Entry>, parentIsSequenceEntry: bool, matches: Entry -> bool)
    requires forall k :: 0 <= k < |entries| ==> matches(entries[k])
    ensures DeleteEntries(entries, parentIsSequenceEntry, matches) == []
  {
    var kept := Kept(entries, matches);
    if kept != [] {
      KeptMembers(entries, matches, kept[0]);
    }
  }

  /**
   * A removed first entry of a sequence-entry mapping passes its prefix to
   * the first survivor; the survivors are otherwise the kept entries.
   */
  lemma FirstPrefixHandedOn(first: Entry, rest: seq<Entry>, matches: Entry -> bool)
    requires matches(first) && Kept(rest, matches) != []
    ensures var kept := Kept(rest, matches);
            DeleteEntries([first] + rest, true, matches) == [kept[0].(prefix := first.prefix)] + kept[1..]
  {
    KeptConcat([first], rest, matches);
    assert Kept([first], matches) == [] by {
      assert [first][..0] == [];
    }
    assert Kept([first] + rest, matches) == Kept(rest, matches);
    assert HandedPrefix([first] + rest, true, matches) == Some(first.prefix);
  }

  /** Outside a sequence entry, or when the first entry stays, deleting is plain filtering. */
  lemma NoHandoff(entries: seq<Entry>, parentIsSequenceEntry: bool, matches: Entry -> bool)
    requires !parentIsSequenceEntry || entries == [] || !matches(entries[0])
    ensures DeleteEntries(entries, parentIsSequenceEntry, matches) == Kept(entries, matches)
  {
  }
}
