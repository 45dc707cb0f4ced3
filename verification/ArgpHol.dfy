/**
 The help list of argp-help.c: which entry owns which short letter. Entries refer to their letters by a position in
 one shared string, and lists are appended to each other; what is shown for an entry must still be exactly the
 letters for which the parser picks one of that entry's options, unless a documentation takes the letter.
 */
module ArgpHol {
  import opened Optional
  import opened ArgpModel
  import opened ArgpLookup
  import opened ArgpGroups
  import opened Slices

  /** hol_entry: `options` are the `num` options from `opt` on; `letters` is the position of `short_options`. */
  datatype HolEntry = HolEntry(options: seq<ArgpOption>, letters: nat, group: int)

  // ----- specification -----

  /** The letters of a list of options, each where it occurs first. */
  function Firsts(options: seq<ArgpOption>): seq<int> {
    if options == [] then []
    else
      var before, last := Firsts(options[..|options| - 1]), options[|options| - 1];
      if last.IsShort() && last.key !in before then before + [last.key] else before
  }

  function FlatEntries(entries: seq<HolEntry>): seq<ArgpOption> {
    if entries == [] then [] else FlatEntries(entries[..|entries| - 1]) + entries[|entries| - 1].options
  }

  ghost predicate NoDuplicates(s: seq<int>) {
    forall i, j :: 0 <= i < j < |s| ==> s[i] != s[j]
  }

  /** Some option has this letter. */
  ghost predicate HasLetter(options: seq<ArgpOption>, c: int) {
    exists i :: 0 <= i < |options| && options[i].IsShort() && options[i].key == c
  }

  lemma {:induction false} FirstsFacts(options: seq<ArgpOption>)
    ensures NoDuplicates(Firsts(options))
    ensures forall c :: c in Firsts(options) <==> HasLetter(options, c)
  {
    if options != [] {
      var init, last := options[..|options| - 1], options[|options| - 1];
      FirstsFacts(init);
      forall c
        ensures c in Firsts(options) <==> HasLetter(options, c)
      {
        if c in Firsts(init) {
          var i :| 0 <= i < |init| && init[i].IsShort() && init[i].key == c;
          assert options[i] == init[i];
        }
        if i :| 0 <= i < |options| && options[i].IsShort() && options[i].key == c {
          if i < |init| {
            assert init[i] == options[i];
          }
        }
      }
    }
  }

  lemma FirstsSnoc(options: seq<ArgpOption>, x: ArgpOption)
    ensures Firsts(options + [x])
            == if x.IsShort() && x.key !in Firsts(options) then Firsts(options) + [x.key] else Firsts(options)
  {
    assert (options + [x])[..|options|] == options;
  }

  lemma {:induction false} FirstsPrefix(a: seq<ArgpOption>, b: seq<ArgpOption>)
    ensures Firsts(a) <= Firsts(a + b)
    decreases |b|
  {
    if b == [] {
      assert a + b == a;
    } else {
      FirstsPrefix(a, b[..|b| - 1]);
      assert (a + b)[..|a + b| - 1] == a + b[..|b| - 1];
    }
  }

  /** The character a C string holds at position i, or its terminator. */
  function At(s: seq<int>, i: nat): int {
    if i < |s| then s[i] else 0
  }

  /** Walking a list of options beside its own string of letters tells, for each option, whether its letter is new. */
  lemma {:induction false} NextLetter(before: seq<ArgpOption>, x: ArgpOption, after: seq<ArgpOption>)
    ensures (x.IsShort() && At(Firsts(before + [x] + after), |Firsts(before)|) == x.key)
            <==> (x.IsShort() && x.key !in Firsts(before))
  {
    var all, m := Firsts(before + [x] + after), |Firsts(before)|;
    FirstsPrefix(before, [x] + after);
    FirstsPrefix(before + [x], after);
    assert before + ([x] + after) == before + [x] + after;
    FirstsSnoc(before, x);
    FirstsFacts(before + [x] + after);
    if x.IsShort() && x.key !in Firsts(before) {
      SamePlace(Firsts(before + [x]), all, m);
    } else if x.IsShort() {
      var i :| 0 <= i < m && Firsts(before)[i] == x.key;
      SamePlace(Firsts(before), all, i);
    }
  }

  lemma SamePlace<T>(s: seq<T>, t: seq<T>, i: nat)
    requires s <= t && i < |s|
    ensures t[i] == s[i]
  {
  }

  // ----- the list -----

  /** find_char: whether ch occurs before the given end. */
  method FindChar(ch: int, s: seq<int>, end: nat) returns (found: bool)
    requires end <= |s|
    ensures found <==> ch in s[..end]
  {
    var i := 0;
    while i < end
      invariant 0 <= i <= end
      invariant ch !in s[..i]
    {
      if s[i] == ch {
        assert s[..end][i] == ch;
        return true;
      }
      assert s[..i + 1] == s[..i] + [s[i]];
      i := i + 1;
    }
    return false;
  }

  class Hol {
    var entries: seq<HolEntry>
    var shortOptions: seq<int>

    constructor ()
      ensures entries == [] && shortOptions == []
    {
      entries, shortOptions := [], [];
    }

    /** The list describes the given options, in order: its letters are their first occurrences, and every entry's
        position is where its own letters start. */
    ghost predicate Describes(options: seq<ArgpOption>)
      reads this
    {
      Consistent(entries, shortOptions, options)
    }

    /** make_hol: the entries of one argp. */
    method Make(options: seq<ArgpOption>)
      requires options != [] ==> !options[0].alias
      requires entries == [] && shortOptions == []
      modifies this
      ensures Describes(options)
      ensures Grouped(entries) && Whole(entries)
      ensures |entries| == NumEntries(options) && |shortOptions| <= NumLetters(options)
    {
      var o := 0;
      var curGroup := 0;
      while o < |options|
        invariant 0 <= o <= |options|
        invariant o < |options| ==> !options[o].alias
        invariant Built(entries, shortOptions, options[..o], curGroup)
      {
        var first := o;
        var letters := |shortOptions|;
        ghost var lastGroup := curGroup;
        curGroup := EntryGroup(options[o], curGroup);
        ghost var before := shortOptions;
        o := TakeEntry(options, o);
        var entry := HolEntry(options[first..o], letters, curGroup);
        BuiltSnoc(entries, before, options[..first], entry, shortOptions, options[..o], lastGroup);
        entries := entries + [entry];
      }
      assert options[..o] == options;
      FirstsFit(options);
    }

    /** The inner loop of make_hol: an option and its aliases, whose new letters are appended. */
    method TakeEntry(options: seq<ArgpOption>, from: nat) returns (o: nat)
      requires from < |options|
      requires shortOptions == Firsts(options[..from])
      modifies this`shortOptions
      ensures from < o <= |options|
      ensures forall i :: from < i < o ==> options[i].alias
      ensures o < |options| ==> !options[o].alias
      ensures shortOptions == Firsts(options[..o])
      ensures !options[from].alias ==> NumEntries(options[..o]) == NumEntries(options[..from]) + 1
    {
      o := from;
      while o == from || (o < |options| && options[o].alias)
        invariant from <= o <= |options|
        invariant forall i :: from < i < o ==> options[i].alias
        invariant shortOptions == Firsts(options[..o])
        invariant NumEntries(options[..o])
                  == NumEntries(options[..from]) + if from < o && !options[from].alias then 1 else 0
        decreases |options| - o
      {
        ghost var seen := options[..o];
        TakeOption(options[o], seen);
        OneLonger(options, o);
        o := o + 1;
      }
    }

    /** One round of it. */
    method TakeOption(x: ArgpOption, ghost seen: seq<ArgpOption>)
      requires shortOptions == Firsts(seen)
      modifies this`shortOptions
      ensures shortOptions == Firsts(seen + [x])
      ensures NumEntries(seen + [x]) == NumEntries(seen) + if x.alias then 0 else 1
    {
      FirstsSnoc(seen, x);
      assert (seen + [x])[..|seen|] == seen;
      if x.IsShort() {
        var used := FindChar(x.key, shortOptions, |shortOptions|);
        if !used {
          shortOptions := shortOptions + [x.key];
        }
      }
    }

    /** hol_append: adds the entries of `more` behind those of this list; letters already taken are dropped. */
    method Append(more: Hol, ghost mine: seq<ArgpOption>, ghost theirs: seq<ArgpOption>)
      requires this != more && Describes(mine) && more.Describes(theirs)
      modifies this
      ensures Describes(mine + theirs)
      ensures Copied(entries, old(entries), more.entries, |more.entries|)
    {
      if |more.entries| > 0 {
        if |entries| == 0 {
          assert mine == [] && mine + theirs == theirs;
          entries := more.entries;
          shortOptions := more.shortOptions;
        } else {
          var merged, so := MergeEntries(entries, shortOptions, more.entries, more.shortOptions, mine, theirs);
          entries, shortOptions := merged, so;
        }
      } else {
        assert mine + theirs == mine;
      }
    }
  }

  /** The merge of hol_append: the entries of the first list, then those of the second with new positions. */
  method MergeEntries(
    entries: seq<HolEntry>, letters: seq<int>, more: seq<HolEntry>, moreLetters: seq<int>,
    ghost mine: seq<ArgpOption>, ghost theirs: seq<ArgpOption>)
    returns (merged: seq<HolEntry>, so: seq<int>)
    requires Consistent(entries, letters, mine) && Consistent(more, moreLetters, theirs)
    ensures Consistent(merged, so, mine + theirs) && Copied(merged, entries, more, |more|)
  {
    merged, so := entries, letters;
    var moreSo, left := 0, 0;
    ghost var seen: seq<ArgpOption> := [];
    assert mine + seen == mine;
    while left < |more|
      invariant 0 <= left <= |more| && Copied(merged, entries, more, left)
      invariant seen == FlatEntries(more[..left])
      invariant Consistent(merged, so, mine + seen) && Merging(mine, seen, moreSo, so)
    {
      FlatSplits(more, left);
      ghost var soFar := merged;
      merged, moreSo, so := MergeEntry(merged, more[left], moreLetters, moreSo, so, |letters|, mine, seen, theirs);
      CopiedMore(merged, soFar, entries, more, left);
      seen := seen + more[left].options;
      left := left + 1;
    }
    assert more[..left] == more;
  }

  /** One entry of the second list. */
  method MergeEntry(
    soFar: seq<HolEntry>, e: HolEntry, moreLetters: seq<int>, from: nat, letters: seq<int>, holLen: nat,
    ghost mine: seq<ArgpOption>, ghost seen: seq<ArgpOption>, ghost theirs: seq<ArgpOption>)
    returns (merged: seq<HolEntry>, moreSo: nat, so: seq<int>)
    requires seen + e.options <= theirs && moreLetters == Firsts(theirs) && holLen == |Firsts(mine)|
    requires Consistent(soFar, letters, mine + seen) && Merging(mine, seen, from, letters)
    ensures Consistent(merged, so, mine + (seen + e.options)) && Merging(mine, seen + e.options, moreSo, so)
    ensures merged == soFar + [HolEntry(e.options, |letters|, e.group)]
  {
    moreSo, so := AppendLetters(e.options, moreLetters, from, letters, holLen, mine, seen, theirs);
    EntryMerged(soFar, letters, e, |letters|, mine, seen, moreSo, so);
    merged := soFar + [HolEntry(e.options, |letters|, e.group)];
  }

  lemma CopiedMore(merged: seq<HolEntry>, soFar: seq<HolEntry>, entries: seq<HolEntry>, more: seq<HolEntry>, n: nat)
    requires Copied(soFar, entries, more, n) && n < |more| && |merged| == |soFar| + 1 && soFar <= merged
    requires merged[|soFar|].options == more[n].options && merged[|soFar|].group == more[n].group
    ensures Copied(merged, entries, more, n + 1)
  {
    assert forall i :: 0 <= i < |soFar| ==> merged[i] == soFar[i];
  }

  /** The entries of the first list, and the first n of the second with new positions. */
  ghost predicate Copied(merged: seq<HolEntry>, entries: seq<HolEntry>, more: seq<HolEntry>, n: nat) {
    && n <= |more| && |merged| == |entries| + n
    && (forall i :: 0 <= i < |entries| ==> merged[i] == entries[i])
    && forall i :: |entries| <= i < |merged| ==>
         merged[i].options == more[i - |entries|].options && merged[i].group == more[i - |entries|].group
  }

  /** An entry is an option that is no alias, with the aliases behind it. */
  ghost predicate IsWhole(e: HolEntry) {
    e.options != [] && !e.options[0].alias && forall k :: 0 < k < |e.options| ==> e.options[k].alias
  }

  ghost predicate Whole(entries: seq<HolEntry>) {
    forall i :: 0 <= i < |entries| ==> IsWhole(entries[i])
  }

  lemma WholeCopied(merged: seq<HolEntry>, entries: seq<HolEntry>, more: seq<HolEntry>)
    requires Copied(merged, entries, more, |more|) && Whole(entries) && Whole(more)
    ensures Whole(merged)
  {
    forall i | 0 <= i < |merged|
      ensures IsWhole(merged[i])
    {
      if i >= |entries| {
        assert IsWhole(more[i - |entries|]);
      }
    }
  }

  /** Where a merge stands when `seen` of the second list has been gone through. */
  ghost predicate Merging(mine: seq<ArgpOption>, seen: seq<ArgpOption>, moreSo: nat, so: seq<int>) {
    moreSo == |Firsts(seen)| && so == Firsts(mine + seen)
  }

  lemma EntryMerged(
    merged: seq<HolEntry>, before: seq<int>, e: HolEntry, start: nat,
    mine: seq<ArgpOption>, seen: seq<ArgpOption>, moreSo: nat, so: seq<int>)
    requires Consistent(merged, before, mine + seen) && start == |before|
    requires Merging(mine, seen + e.options, moreSo, so)
    ensures Consistent(merged + [HolEntry(e.options, start, e.group)], so, mine + (seen + e.options))
  {
    assert mine + seen + e.options == mine + (seen + e.options);
    ConsistentSnoc(merged, before, mine + seen, HolEntry(e.options, start, e.group), so);
  }

  /** One option of the merge: its letter is taken over if it is the next of its own list and new to the first. */
  lemma MergeStep(
    mine: seq<ArgpOption>, seen: seq<ArgpOption>, x: ArgpOption, theirs: seq<ArgpOption>, moreSo: nat, so: seq<int>)
    requires Merging(mine, seen, moreSo, so) && seen + [x] <= theirs
    ensures var ch := At(Firsts(theirs), moreSo);
            if x.IsShort() && ch == x.key
            then Merging(mine, seen + [x], moreSo + 1, if ch in Firsts(mine) then so else so + [ch])
            else Merging(mine, seen + [x], moreSo, so)
    ensures |Firsts(mine)| <= |so| && so[..|Firsts(mine)|] == Firsts(mine)
  {
    var after := theirs[|seen| + 1..];
    assert theirs == seen + [x] + after;
    assert mine + (seen + [x]) == mine + seen + [x];
    NextLetter(seen, x, after);
    FirstsUnion(mine, seen);
    FirstsSnoc(seen, x);
    FirstsSnoc(mine + seen, x);
    FirstsPrefix(mine, seen);
  }

  lemma {:induction false} FlatSplits(entries: seq<HolEntry>, i: nat)
    requires i < |entries|
    ensures FlatEntries(entries[..i + 1]) == FlatEntries(entries[..i]) + entries[i].options
    ensures FlatEntries(entries[..i]) + entries[i].options <= FlatEntries(entries)
    decreases |entries|
  {
    assert entries[..i + 1][..i] == entries[..i];
    if i == |entries| - 1 {
      assert entries[..i + 1] == entries;
    } else {
      var init := entries[..|entries| - 1];
      FlatSplits(init, i);
      assert init[..i] == entries[..i];
    }
  }

  lemma FirstsUnion(a: seq<ArgpOption>, b: seq<ArgpOption>)
    ensures forall c :: c in Firsts(a + b) <==> c in Firsts(a) || c in Firsts(b)
  {
    FirstsFacts(a);
    FirstsFacts(b);
    FirstsFacts(a + b);
    var s := a + b;
    forall c
      ensures c in Firsts(s) <==> c in Firsts(a) || c in Firsts(b)
    {
      if c in Firsts(a) {
        var i :| 0 <= i < |a| && a[i].IsShort() && a[i].key == c;
        assert s[i] == a[i];
      }
      if c in Firsts(b) {
        var i :| 0 <= i < |b| && b[i].IsShort() && b[i].key == c;
        assert s[|a| + i] == b[i];
      }
      if c in Firsts(s) {
        var i :| 0 <= i < |s| && s[i].IsShort() && s[i].key == c;
        if i < |a| {
          assert a[i] == s[i];
        } else {
          assert b[i - |a|] == s[i];
        }
      }
    }
  }

  /** The inner loop of hol_append: the letters of one entry of the other list, unless this list has them. */
  method AppendLetters(
    options: seq<ArgpOption>, moreLetters: seq<int>, from: nat, letters: seq<int>, holLen: nat,
    ghost mine: seq<ArgpOption>, ghost seen: seq<ArgpOption>, ghost theirs: seq<ArgpOption>)
    returns (moreSo: nat, so: seq<int>)
    requires seen + options <= theirs && moreLetters == Firsts(theirs) && holLen == |Firsts(mine)|
    requires Merging(mine, seen, from, letters)
    ensures Merging(mine, seen + options, moreSo, so)
  {
    moreSo, so := from, letters;
    var o := 0;
    ghost var done := seen;
    while o < |options|
      invariant 0 <= o <= |options|
      invariant done == seen + options[..o]
      invariant Merging(mine, done, moreSo, so)
    {
      assert done + [options[o]] == seen + options[..o + 1];
      MergeStep(mine, done, options[o], theirs, moreSo, so);
      var ch := At(moreLetters, moreSo);
      if options[o].IsShort() && ch == options[o].key {
        var used := FindChar(ch, so, holLen);
        if !used {
          so := so + [ch];
        }
        moreSo := moreSo + 1;
      }
      done := done + [options[o]];
      o := o + 1;
    }
    assert done == seen + options;
  }

  ghost predicate Consistent(entries: seq<HolEntry>, letters: seq<int>, options: seq<ArgpOption>) {
    && FlatEntries(entries) == options
    && letters == Firsts(options)
    && forall i :: 0 <= i < |entries| ==> entries[i].letters == |Firsts(FlatEntries(entries[..i]))|
  }

  lemma ConsistentSnoc(
    entries: seq<HolEntry>, letters: seq<int>, options: seq<ArgpOption>, e: HolEntry, letters': seq<int>)
    requires Consistent(entries, letters, options)
    requires e.letters == |Firsts(options)| && letters' == Firsts(options + e.options)
    ensures Consistent(entries + [e], letters', options + e.options)
  {
    var more := entries + [e];
    assert more[..|entries|] == entries;
    forall i | 0 <= i < |more|
      ensures more[i].letters == |Firsts(FlatEntries(more[..i]))|
    {
      if i < |entries| {
        assert more[..i] == entries[..i];
      }
    }
  }

  /** How many entries and letters make_hol makes room for. */
  function NumEntries(options: seq<ArgpOption>): nat {
    if options == [] then 0
    else NumEntries(options[..|options| - 1]) + if options[|options| - 1].alias then 0 else 1
  }

  function NumLetters(options: seq<ArgpOption>): nat {
    if options == [] then 0
    else NumLetters(options[..|options| - 1]) + if options[|options| - 1].IsShort() then 1 else 0
  }

  lemma {:induction false} FirstsFit(options: seq<ArgpOption>)
    ensures |Firsts(options)| <= NumLetters(options)
  {
    if options != [] {
      FirstsFit(options[..|options| - 1]);
    }
  }

  /** The group of an entry: its own number, one more than the last for a header, or else the last. */
  function EntryGroup(o: ArgpOption, cur: int): int {
    if o.group != 0 then o.group
    else if o.name.None? && o.key == 0 then cur + 1
    else cur
  }

  /** Entries start with a proper option, and their groups follow from each other. */
  ghost predicate Grouped(entries: seq<HolEntry>) {
    forall i :: 0 <= i < |entries| ==> GroupedAt(entries, i)
  }

  ghost predicate GroupedAt(entries: seq<HolEntry>, i: nat)
    requires i < |entries|
  {
    && entries[i].options != [] && !entries[i].options[0].alias
    && entries[i].group == EntryGroup(entries[i].options[0], if i == 0 then 0 else entries[i - 1].group)
  }

  /** What make_hol has built from a prefix of the options. */
  ghost predicate Built(entries: seq<HolEntry>, letters: seq<int>, options: seq<ArgpOption>, curGroup: int) {
    && Consistent(entries, letters, options)
    && Grouped(entries) && Whole(entries) && |entries| == NumEntries(options)
    && curGroup == if entries == [] then 0 else entries[|entries| - 1].group
  }

  lemma BuiltSnoc(
    entries: seq<HolEntry>, letters: seq<int>, options: seq<ArgpOption>, e: HolEntry,
    letters': seq<int>, options': seq<ArgpOption>, curGroup: int)
    requires Built(entries, letters, options, curGroup)
    requires e.options != [] && e.group == EntryGroup(e.options[0], curGroup)
    requires IsWhole(e) && e.letters == |letters|
    requires options' == options + e.options && letters' == Firsts(options')
    requires NumEntries(options') == NumEntries(options) + 1
    ensures Built(entries + [e], letters', options', e.group)
  {
    ConsistentSnoc(entries, letters, options, e, letters');
    GroupedSnoc(entries, e);
  }

  lemma GroupedSnoc(entries: seq<HolEntry>, e: HolEntry)
    requires Grouped(entries) && Whole(entries) && IsWhole(e)
    requires e.group == EntryGroup(e.options[0], if entries == [] then 0 else entries[|entries| - 1].group)
    ensures Grouped(entries + [e]) && Whole(entries + [e])
  {
    var more := entries + [e];
    forall i | 0 <= i < |more|
      ensures GroupedAt(more, i) && IsWhole(more[i])
    {
      if i < |entries| {
        assert GroupedAt(entries, i) && IsWhole(entries[i]);
      }
    }
  }

  // ----- a whole tree -----

  /** All options of a tree in preorder. */
  function AllOptions(a: Argp): seq<ArgpOption>
    decreases a, 1
  {
    a.Options() + AllOptionsOf(a.children)
  }

  function AllOptionsOf(children: seq<Child>): seq<ArgpOption>
    decreases children, 0
  {
    if children == [] then []
    else
      assert children[|children| - 1].argp < children[|children| - 1];
      AllOptionsOf(children[..|children| - 1]) + AllOptions(children[|children| - 1].argp)
  }

  /** How the options of a tree grow by one child. */
  lemma {:induction false} AllOptionsSnoc(a: Argp, i: nat, described: seq<ArgpOption>)
    requires i < |a.children| && described == a.Options() + AllOptionsOf(a.children[..i])
    ensures described + AllOptions(a.children[i].argp) == a.Options() + AllOptionsOf(a.children[..i + 1])
    ensures i + 1 == |a.children| ==> described + AllOptions(a.children[i].argp) == AllOptions(a)
  {
    var longer := a.children[..i + 1];
    assert longer[..i] == a.children[..i];
    assert AllOptionsOf(longer) == AllOptionsOf(a.children[..i]) + AllOptions(a.children[i].argp);
    Joined(a.Options(), AllOptionsOf(a.children[..i]), AllOptions(a.children[i].argp));
    if i + 1 == |a.children| {
      assert longer == a.children;
    }
  }

  /** The assertion of make_hol, for the whole tree: no option vector starts with an alias. */
  predicate StartsProperly(a: Argp)
    decreases a
  {
    (a.Options() != [] ==> !a.Options()[0].alias)
    && forall i :: 0 <= i < |a.children| ==>
                     assert a.children[i].argp < a.children[i]; StartsProperly(a.children[i].argp)
  }

  /** argp_hol: the list of a whole tree describes its options in preorder. */
  method HolOf(argp: Argp) returns (hol: Hol)
    requires StartsProperly(argp)
    ensures fresh(hol) && hol.Describes(AllOptions(argp)) && Whole(hol.entries)
    decreases argp
  {
    hol := new Hol();
    hol.Make(argp.Options());
    var i := 0;
    ghost var described := argp.Options();
    while i < |argp.children|
      invariant 0 <= i <= |argp.children|
      invariant fresh(hol) && hol.Describes(described) && Whole(hol.entries)
      invariant described == argp.Options() + AllOptionsOf(argp.children[..i])
      invariant i == |argp.children| ==> described == AllOptions(argp)
    {
      assert argp.children[i].argp < argp.children[i];
      var more := HolOf(argp.children[i].argp);
      AllOptionsSnoc(argp, i, described);
      ghost var entries := hol.entries;
      hol.Append(more, described, AllOptions(argp.children[i].argp));
      WholeCopied(hol.entries, entries, more.entries);
      described := described + AllOptions(argp.children[i].argp);
      i := i + 1;
    }
  }

  // ----- what is shown -----

  /** The letter of option k of an entry belongs to it: no option before it in the list has the same letter. */
  ghost predicate Owned(before: seq<ArgpOption>, options: seq<ArgpOption>, k: nat)
    requires k < |options|
  {
    options[k].IsShort() && options[k].key !in Firsts(before + options[..k])
  }

  /** The proper option that the last of the first n options of an entry stands for: the last with a letter of its
      own. */
  ghost function RealOption(before: seq<ArgpOption>, options: seq<ArgpOption>, n: nat): nat
    requires n <= |options|
  {
    if n == 0 then 0
    else if Owned(before, options, n - 1) && !options[n - 1].alias then n - 1
    else RealOption(before, options, n - 1)
  }

  /** The options shown with a letter, each with the proper option it stands for. */
  ghost function Shown(before: seq<ArgpOption>, options: seq<ArgpOption>, n: nat): seq<(nat, nat)>
    requires n <= |options|
  {
    if n == 0 then []
    else Shown(before, options, n - 1)
         + if Owned(before, options, n - 1) && !options[n - 1].hidden
           then [(n - 1, RealOption(before, options, n))] else []
  }

  /** An option that others can stand for: it owns its letter, and is no alias. */
  ghost predicate IsReal(before: seq<ArgpOption>, options: seq<ArgpOption>, k: nat)
    requires k < |options|
  {
    Owned(before, options, k) && !options[k].alias
  }

  /** The proper option is the nearest one up to here that is no alias and owns its letter; if there is none, the first
      option of the entry. */
  lemma {:induction false} RealOptionIsNearest(before: seq<ArgpOption>, options: seq<ArgpOption>, n: nat)
    requires n <= |options|
    ensures var r := RealOption(before, options, n);
            if exists k :: 0 <= k < n && IsReal(before, options, k)
            then r < n && IsReal(before, options, r) && forall k :: r < k < n ==> !IsReal(before, options, k)
            else r == 0
  {
    if n > 0 && !IsReal(before, options, n - 1) {
      RealOptionIsNearest(before, options, n - 1);
    }
  }

  /** What is shown are exactly the visible options that own their letter, each with its proper option. */
  lemma {:induction false} ShownIs(before: seq<ArgpOption>, options: seq<ArgpOption>, n: nat, k: nat, r: nat)
    requires n <= |options|
    ensures (k, r) in Shown(before, options, n)
            <==> k < n && Owned(before, options, k) && !options[k].hidden && r == RealOption(before, options, k + 1)
  {
    if n > 0 {
      ShownIs(before, options, n - 1, k, r);
      AmongMore(Shown(before, options, n - 1), (n - 1, RealOption(before, options, n)), (k, r));
    }
  }

  lemma AmongMore(shown: seq<(nat, nat)>, last: (nat, nat), x: (nat, nat))
    ensures x in shown + [last] <==> x in shown || x == last
    ensures shown + [] == shown
  {
  }

  /** They are shown in their order, and none twice. */
  ghost predicate Ascending(shown: seq<(nat, nat)>, n: nat) {
    && (forall i :: 0 <= i < |shown| ==> shown[i].0 < n)
    && forall i, j :: 0 <= i < j < |shown| ==> shown[i].0 < shown[j].0
  }

  lemma {:induction false} ShownInOrder(before: seq<ArgpOption>, options: seq<ArgpOption>, n: nat)
    requires n <= |options|
    ensures Ascending(Shown(before, options, n), n)
  {
    if n > 0 {
      ShownInOrder(before, options, n - 1);
      AscendingMore(Shown(before, options, n - 1), n - 1, RealOption(before, options, n));
    }
  }

  lemma AscendingMore(shown: seq<(nat, nat)>, n: nat, r: nat)
    requires Ascending(shown, n)
    ensures Ascending(shown + [(n, r)], n + 1) && Ascending(shown + [], n + 1)
  {
    assert shown + [] == shown;
  }

  /** The first n options of an entry have been walked, up to this position in the shared string. */
  ghost predicate Walked(before: seq<ArgpOption>, options: seq<ArgpOption>, n: nat, so: nat, proper: nat,
                         shown: seq<(nat, nat)>)
    requires n <= |options|
  {
    && so == |Firsts(before + options[..n])|
    && proper == RealOption(before, options, n)
    && shown == Shown(before, options, n)
  }

  /** hol_entry_short_iterate, with the calls of its function as a list: walks the options of an entry beside the
      shared string, and shows exactly the visible options that own their letter. */
  method ShortIterate(e: HolEntry, letters: seq<int>, ghost before: seq<ArgpOption>, ghost after: seq<ArgpOption>)
    returns (shown: seq<(nat, nat)>)
    requires letters == Firsts(before + e.options + after) && e.letters == |Firsts(before)|
    ensures shown == Shown(before, e.options, |e.options|)
  {
    shown := [];
    var opt: nat, proper: nat, so := 0, 0, e.letters;
    assert before + e.options[..0] == before;
    while opt < |e.options|
      invariant opt <= |e.options| && Walked(before, e.options, opt, so, proper, shown)
    {
      so, proper, shown := IterateOne(e.options, letters, opt, so, proper, shown, before, after);
      opt := opt + 1;
    }
  }

  /** One round of the loop. */
  method IterateOne(options: seq<ArgpOption>, letters: seq<int>, opt: nat, soFar: nat, properSoFar: nat,
                    shownSoFar: seq<(nat, nat)>, ghost before: seq<ArgpOption>, ghost after: seq<ArgpOption>)
    returns (so: nat, proper: nat, shown: seq<(nat, nat)>)
    requires letters == Firsts(before + options + after) && opt < |options|
    requires Walked(before, options, opt, soFar, properSoFar, shownSoFar)
    ensures Walked(before, options, opt + 1, so, proper, shown)
  {
    IterateStep(before, options, opt, after, soFar, properSoFar, shownSoFar);
    so, proper, shown := soFar, properSoFar, shownSoFar;
    if options[opt].IsShort() && At(letters, so) == options[opt].key {
      if !options[opt].alias {
        proper := opt;
      }
      if !options[opt].hidden {
        shown := shown + [(opt, proper)];
      }
      so := so + 1;
    }
  }

  /** The position in the shared string tells at each option whether the letter is its own. */
  lemma IterateStep(before: seq<ArgpOption>, options: seq<ArgpOption>, k: nat, after: seq<ArgpOption>, so: nat,
                    proper: nat, shown: seq<(nat, nat)>)
    requires k < |options| && Walked(before, options, k, so, proper, shown)
    ensures var own := options[k].IsShort() && At(Firsts(before + options + after), so) == options[k].key;
            var stands := if own && !options[k].alias then k else proper;
            Walked(before, options, k + 1, if own then so + 1 else so, stands,
                   if own && !options[k].hidden then shown + [(k, stands)] else shown)
  {
    var done, rest := before + options[..k], options[k + 1..] + after;
    assert before + options + after == done + [options[k]] + rest;
    assert before + options[..k + 1] == done + [options[k]];
    NextLetter(done, options[k], rest);
    FirstsSnoc(done, options[k]);
  }

  // ----- the help list and the parser agree -----

  function OptionsOf(groups: seq<Group>): seq<ArgpOption> {
    if groups == [] then [] else OptionsOf(groups[..|groups| - 1]) + groups[|groups| - 1].options
  }

  lemma {:induction false} OptionsOfJoined(a: seq<Group>, b: seq<Group>)
    ensures OptionsOf(a + b) == OptionsOf(a) + OptionsOf(b)
    decreases |b|
  {
    if b == [] {
      assert a + b == a;
    } else {
      var init, last := b[..|b| - 1], b[|b| - 1];
      assert b == init + [last];
      OptionsOfJoined(a, init);
      OptionsOfBothSnoc(a, init, last);
    }
  }

  lemma {:induction false} OptionsOfBothSnoc(a: seq<Group>, b: seq<Group>, g: Group)
    requires OptionsOf(a + b) == OptionsOf(a) + OptionsOf(b)
    ensures OptionsOf(a + (b + [g])) == OptionsOf(a) + OptionsOf(b + [g])
  {
    Joined(a, b, [g]);
    OptionsOfSnoc(a + b, g);
    OptionsOfSnoc(b, g);
    Joined(OptionsOf(a), OptionsOf(b), g.options);
  }

  lemma OptionsOfSnoc(groups: seq<Group>, g: Group)
    ensures OptionsOf(groups + [g]) == OptionsOf(groups) + g.options
  {
    assert (groups + [g])[..|groups|] == groups;
  }

  lemma OptionsOfOne(g: Group)
    ensures OptionsOf([g]) == g.options
  {
    assert [g][..0] == [];
    assert OptionsOf([g]) == OptionsOf([]) + g.options;
  }

  /** The groups of a tree hold its options in preorder. */
  lemma {:induction false} LayoutInPreorder(a: Argp, parent: Option<nat>, parentIndex: nat, at: nat, slots: nat)
    ensures OptionsOf(Layout(a, parent, parentIndex, at, slots)) == AllOptions(a)
    decreases a, 1
  {
    if a.NeedsGroup() {
      LayoutOfInPreorder(a.children, Some(at), at + 1, slots + |a.children|);
      RootComesFirst(a, parent, parentIndex, at, slots);
      assert AllOptions(a) == a.Options() + AllOptionsOf(a.children);
    } else {
      LayoutOfInPreorder(a.children, None, at, slots);
      assert Layout(a, parent, parentIndex, at, slots) == LayoutOf(a.children, None, at, slots);
      assert a.Options() == [] && AllOptions(a) == [] + AllOptionsOf(a.children);
    }
  }

  lemma RootComesFirst(a: Argp, parent: Option<nat>, parentIndex: nat, at: nat, slots: nat)
    requires a.NeedsGroup()
    ensures OptionsOf(Layout(a, parent, parentIndex, at, slots))
            == a.Options() + OptionsOf(LayoutOf(a.children, Some(at), at + 1, slots + |a.children|))
  {
    var root := Group(a.Options(), a.hasParser, parent, parentIndex, slots, |a.children|);
    OptionsOfJoined([root], LayoutOf(a.children, Some(at), at + 1, slots + |a.children|));
    OptionsOfOne(root);
  }

  lemma {:induction false} LayoutOfInPreorder(children: seq<Child>, parent: Option<nat>, at: nat, slots: nat)
    ensures OptionsOf(LayoutOf(children, parent, at, slots)) == AllOptionsOf(children)
    decreases children, 0
  {
    if children == [] {
      assert LayoutOf(children, parent, at, slots) == [];
    } else {
      var init, last := children[..|children| - 1], children[|children| - 1];
      assert last.argp < last;
      LayoutOfInPreorder(init, parent, at, slots);
      var before := LayoutOf(init, parent, at, slots);
      var at', slots' := at + NumGroupsOf(init), slots + UsedSlotsOf(init);
      LayoutInPreorder(last.argp, parent, |init|, at', slots');
      var own := Layout(last.argp, parent, |init|, at', slots');
      assert LayoutOf(children, parent, at, slots) == before + own;
      OptionsOfJoined(before, own);
    }
  }

  lemma {:induction false} LettersInPrefix(s: seq<ArgpOption>, t: seq<ArgpOption>, n: nat)
    requires n <= |s|
    ensures LettersIn(s + t, n) == LettersIn(s, n)
  {
    if n > 0 {
      LettersInPrefix(s, t, n - 1);
    }
  }

  lemma {:induction false} LettersInJoined(s: seq<ArgpOption>, t: seq<ArgpOption>, n: nat)
    requires n <= |t|
    ensures LettersIn(s + t, |s| + n) == LettersIn(s, |s|) + LettersIn(t, n)
  {
    if n == 0 {
      LettersInPrefix(s, t, |s|);
      assert LettersIn(s, |s|) + "" == LettersIn(s, |s|);
    } else {
      LettersInJoined(s, t, n - 1);
      Joined(LettersIn(s, |s|), LettersIn(t, n - 1), if t[n - 1].IsShort() then [t[n - 1].key as char] else "");
    }
  }

  /** The letters that convert_options records are those of all options of the tree in preorder. */
  lemma {:induction false} LettersInPreorder(a: Argp)
    ensures Letters(a) == LettersIn(AllOptions(a), |AllOptions(a)|)
    decreases a, 1
  {
    LettersOfInPreorder(a.children);
    LettersInJoined(a.Options(), AllOptionsOf(a.children), |AllOptionsOf(a.children)|);
  }

  lemma {:induction false} LettersOfInPreorder(children: seq<Child>)
    ensures LettersOf(children) == LettersIn(AllOptionsOf(children), |AllOptionsOf(children)|)
    decreases children, 0
  {
    if children != [] {
      var init, last := children[..|children| - 1], children[|children| - 1];
      assert last.argp < last;
      LettersOfInPreorder(init);
      LettersInPreorder(last.argp);
      LettersInJoined(AllOptionsOf(init), AllOptions(last.argp), |AllOptions(last.argp)|);
    }
  }

  lemma {:induction false} LetterInFirst(options: seq<ArgpOption>, n: nat, c: char)
    requires n <= |options|
    ensures c in LettersIn(options, n)
            <==> exists i :: 0 <= i < n && options[i].IsShort() && options[i].key == c as int
  {
    if n > 0 {
      LetterInFirst(options, n - 1, c);
    }
  }

  /** The string that classify_arg looks in has exactly the letters of the short options of the tree. */
  lemma LetterIsRecorded(a: Argp, c: char)
    ensures c in Letters(a) <==> HasLetter(AllOptions(a), c as int)
  {
    LettersInPreorder(a);
    LetterInFirst(AllOptions(a), |AllOptions(a)|, c);
  }

  /** The parser's search order is the order of the options in the groups. */
  lemma {:induction false} FlatInOrder(groups: seq<Group>, n: nat)
    requires n <= |groups|
    ensures |Flat(groups, n)| == |OptionsOf(groups[..n])|
    ensures forall g :: 0 <= g < |Flat(groups, n)| ==> Flat(groups, n)[g].option == OptionsOf(groups[..n])[g]
  {
    if n > 0 {
      FlatInOrder(groups, n - 1);
      assert groups[..n][..n - 1] == groups[..n - 1];
    }
  }

  /** Some option that is only documentation has this key. The help list gives it no letter, but the parser does not
      tell it from others. */
  ghost predicate DocHasKey(options: seq<ArgpOption>, key: int) {
    exists i :: 0 <= i < |options| && options[i].isDoc && options[i].key == key
  }

  /** The option at place g of the search order is the one find_short_option picks for the letter. */
  ghost predicate ParserPicks(groups: seq<Group>, letter: int, g: nat) {
    var all := Flat(groups, |groups|);
    && g < |all| && all[g].option.key == letter && ShortOption(groups, letter) == Some(all[g])
    && forall j :: 0 <= j < g ==> all[j].option.key != letter
  }

  /** The parser picks an option of a tree for a letter exactly if the option has the letter as its key, no short
      option before it owns the letter, and no documentation before it has the key. */
  lemma OwnerIsPicked(a: Argp, g: nat, front: seq<ArgpOption>, x: ArgpOption, letter: int)
    requires g < |AllOptions(a)| && IsLetter(letter)
    requires front == AllOptions(a)[..g] && x == AllOptions(a)[g]
    ensures ParserPicks(Layout(a, None, 0, 0, 0), letter, g)
            <==> x.key == letter && letter !in Firsts(front) && !DocHasKey(front, letter)
  {
    var groups, options := Layout(a, None, 0, 0, 0), AllOptions(a);
    var all := Flat(groups, |groups|);
    SearchOrder(a);
    NoKeyBefore(front, letter);
    FirstWithKeyIsLeast(all, letter);
    assert forall j :: 0 <= j < g ==> all[j].option == options[j] && front[j] == options[j];
  }

  lemma SearchOrder(a: Argp)
    ensures var groups := Layout(a, None, 0, 0, 0);
            |Flat(groups, |groups|)| == |AllOptions(a)|
            && forall g :: 0 <= g < |AllOptions(a)| ==> Flat(groups, |groups|)[g].option == AllOptions(a)[g]
  {
    var groups := Layout(a, None, 0, 0, 0);
    LayoutInPreorder(a, None, 0, 0, 0);
    FlatInOrder(groups, |groups|);
    assert groups[..|groups|] == groups;
  }

  lemma NoKeyBefore(front: seq<ArgpOption>, letter: int)
    requires IsLetter(letter)
    ensures letter !in Firsts(front) && !DocHasKey(front, letter)
            <==> forall j :: 0 <= j < |front| ==> front[j].key != letter
  {
    FirstsFacts(front);
    if j :| 0 <= j < |front| && front[j].key == letter {
      assert HasLetter(front, letter) || DocHasKey(front, letter);
    }
  }

  lemma PlaceInList(before: seq<ArgpOption>, own: seq<ArgpOption>, options: seq<ArgpOption>, k: nat)
    requires before + own <= options && k < |own|
    ensures options[|before| + k] == own[k] && options[..|before| + k] == before + own[..k]
  {
    var both, n := before + own, |before| + k;
    assert both[n] == own[k] && both[..n] == before + own[..k];
    assert options[n] == both[n];
    assert options[..n] == both[..n];
  }

  /** However many lists were appended, the shared string has every letter of the tree exactly once. */
  lemma LettersOnce(a: Argp, entries: seq<HolEntry>, letters: seq<int>)
    requires Consistent(entries, letters, AllOptions(a))
    ensures NoDuplicates(letters)
    ensures forall c :: c in letters <==> HasLetter(AllOptions(a), c)
  {
    FirstsFacts(AllOptions(a));
  }

  /** What the help list shows an entry to own, in terms of the parser: for every tree, the parser picks a short option
      exactly if the option owns its letter and no documentation before it has the key. */
  lemma {:induction false} HelpAgreesWithParser(a: Argp, entries: seq<HolEntry>, letters: seq<int>, i: nat, k: nat)
    requires Consistent(entries, letters, AllOptions(a))
    requires i < |entries| && k < |entries[i].options| && entries[i].options[k].IsShort()
    ensures var before, own := FlatEntries(entries[..i]), entries[i].options;
            && before + own <= AllOptions(a) && entries[i].letters == |Firsts(before)|
            && (ParserPicks(Layout(a, None, 0, 0, 0), own[k].key, |before| + k)
                <==> Owned(before, own, k) && !DocHasKey(before + own[..k], own[k].key))
  {
    EntryInPlace(entries, letters, AllOptions(a), i);
    PickedIfAndOnlyIfOwned(a, FlatEntries(entries[..i]), entries[i].options, k);
  }

  lemma {:induction false} EntryInPlace(
    entries: seq<HolEntry>, letters: seq<int>, options: seq<ArgpOption>, i: nat)
    requires Consistent(entries, letters, options) && i < |entries|
    ensures FlatEntries(entries[..i]) + entries[i].options <= options
    ensures entries[i].letters == |Firsts(FlatEntries(entries[..i]))|
  {
    FlatSplits(entries, i);
  }

  lemma {:induction false} PickedIfAndOnlyIfOwned(a: Argp, before: seq<ArgpOption>, own: seq<ArgpOption>, k: nat)
    requires before + own <= AllOptions(a) && k < |own| && own[k].IsShort()
    ensures ParserPicks(Layout(a, None, 0, 0, 0), own[k].key, |before| + k)
            <==> Owned(before, own, k) && !DocHasKey(before + own[..k], own[k].key)
  {
    PlaceInList(before, own, AllOptions(a), k);
    OwnerIsPicked(a, |before| + k, before + own[..k], own[k], own[k].key);
  }

  /** So the list and the parser agree on a letter that no documentation of the tree has as its key. */
  lemma {:induction false} HelpAgreesWithoutDocs(a: Argp, entries: seq<HolEntry>, letters: seq<int>, i: nat, k: nat)
    requires Consistent(entries, letters, AllOptions(a))
    requires i < |entries| && k < |entries[i].options| && entries[i].options[k].IsShort()
    requires !DocHasKey(AllOptions(a), entries[i].options[k].key)
    ensures var before := FlatEntries(entries[..i]);
            Owned(before, entries[i].options, k)
            <==> ParserPicks(Layout(a, None, 0, 0, 0), entries[i].options[k].key, |before| + k)
  {
    var before, own := FlatEntries(entries[..i]), entries[i].options;
    HelpAgreesWithParser(a, entries, letters, i, k);
    PlaceInList(before, own, AllOptions(a), k);
    NoDocBefore(AllOptions(a), |before| + k, own[k].key);
  }

  lemma NoDocBefore(options: seq<ArgpOption>, n: nat, key: int)
    requires n <= |options|
    ensures DocHasKey(options[..n], key) ==> DocHasKey(options, key)
  {
    var front := options[..n];
    if j :| 0 <= j < |front| && front[j].isDoc && front[j].key == key {
      assert options[j] == front[j];
    }
  }

  /** A documentation entry with the key of the short option after it: the help list shows the option with its letter,
      and the parser picks the documentation. */
  lemma DocTakesLetter() returns (a: Argp, doc: ArgpOption, x: ArgpOption)
    ensures AllOptions(a) == [doc, x] && doc.isDoc && Owned([doc], [x], 0)
    ensures ParserPicks(Layout(a, None, 0, 0, 0), x.key, 0) && !ParserPicks(Layout(a, None, 0, 0, 0), x.key, 1)
  {
    doc := ArgpOption(Some("notes"), 'x' as int, false, false, false, false, true, 0);
    x := doc.(isDoc := false);
    a := Argp(Some([doc, x]), false, None, []);
    assert AllOptions(a) == [doc, x];
    assert [doc] + [x][..0] == [doc] && [doc][..0] == [];
    assert Firsts([doc]) == [];
    OwnerIsPicked(a, 0, [], doc, 'x' as int);
  }
}
