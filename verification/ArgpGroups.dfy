/**
 How an argp tree becomes the array of parsing groups (argp-parse.c: calc_sizes, convert_options, and the first pass
 of parser_init over the groups).
 */
module ArgpGroups {
  import opened Optional
  import opened ArgpModel
  import opened ArgpState
  import opened Slices

  // ----- counting -----

  function NumGroups(a: Argp): nat
    decreases a, 1
  {
    (if a.NeedsGroup() then 1 else 0) + NumGroupsOf(a.children)
  }

  function NumGroupsOf(children: seq<Child>): nat
    decreases children, 0
  {
    if children == [] then 0
    else
      assert children[|children| - 1].argp < children[|children| - 1];
      NumGroupsOf(children[..|children| - 1]) + NumGroups(children[|children| - 1].argp)
  }

  /** Child-input slots that calc_sizes counts: one for every child of every argp. */
  function CountedSlots(a: Argp): nat
    decreases a, 1
  {
    CountedSlotsOf(a.children)
  }

  function CountedSlotsOf(children: seq<Child>): nat
    decreases children, 0
  {
    if children == [] then 0
    else
      assert children[|children| - 1].argp < children[|children| - 1];
      CountedSlotsOf(children[..|children| - 1]) + CountedSlots(children[|children| - 1].argp) + 1
  }

  /** Child-input slots that convert_options hands out: only argps with a group of their own get any. */
  function UsedSlots(a: Argp): nat
    decreases a, 1
  {
    (if a.NeedsGroup() then |a.children| else 0) + UsedSlotsOf(a.children)
  }

  function UsedSlotsOf(children: seq<Child>): nat
    decreases children, 0
  {
    if children == [] then 0
    else
      assert children[|children| - 1].argp < children[|children| - 1];
      UsedSlotsOf(children[..|children| - 1]) + UsedSlots(children[|children| - 1].argp)
  }

  lemma {:induction false} UsedWithinCounted(a: Argp)
    ensures UsedSlots(a) <= CountedSlots(a)
    decreases a, 1
  {
    UsedWithinCountedOf(a.children);
  }

  lemma {:induction false} UsedWithinCountedOf(children: seq<Child>)
    ensures |children| + UsedSlotsOf(children) <= CountedSlotsOf(children)
    decreases children, 0
  {
    if children != [] {
      UsedWithinCountedOf(children[..|children| - 1]);
      assert children[|children| - 1].argp < children[|children| - 1];
      UsedWithinCounted(children[|children| - 1].argp);
    }
  }

  // ----- short options -----

  /** How many of the first n options come before the first one that is not short. */
  function Leading(options: seq<ArgpOption>, n: nat): (r: nat)
    requires n <= |options|
    ensures r <= n
  {
    if n == 0 then 0
    else
      var before := Leading(options, n - 1);
      if before == n - 1 && options[n - 1].IsShort() then n else before
  }

  /** The letters of the short ones among the first n options. */
  function LettersIn(options: seq<ArgpOption>, n: nat): string
    requires n <= |options|
  {
    if n == 0 then ""
    else LettersIn(options, n - 1) + if options[n - 1].IsShort() then [options[n - 1].key as char] else ""
  }

  /** The short ones among the first n options come before all others. */
  ghost predicate ShortsFirst(options: seq<ArgpOption>, n: nat)
    requires n <= |options|
  {
    forall i, j :: 0 <= i < j < n && options[j].IsShort() ==> options[i].IsShort()
  }

  lemma {:induction false} LeadingLetters(options: seq<ArgpOption>, n: nat)
    requires n <= |options|
    ensures var m := Leading(options, n);
            (forall i :: 0 <= i < m ==> options[i].IsShort()) && (m < n ==> !options[m].IsShort())
    ensures Leading(options, n) <= |LettersIn(options, n)|
    ensures Leading(options, n) == |LettersIn(options, n)| <==> ShortsFirst(options, n)
  {
    if n > 0 {
      LeadingLetters(options, n - 1);
      var m := Leading(options, n - 1);
      if m < n - 1 && options[n - 1].IsShort() {
        assert !options[m].IsShort();
      }
    }
  }

  lemma {:induction false} LeadingStops(options: seq<ArgpOption>, i: nat, n: nat)
    requires i < n <= |options| && Leading(options, i) == i && !options[i].IsShort()
    ensures Leading(options, n) == i
  {
    if i + 1 < n {
      LeadingStops(options, i, n - 1);
    }
  }

  /** The letters that calc_sizes counts: for each argp, up to the first option that is not short. */
  function CountedLetters(a: Argp): nat
    decreases a, 1
  {
    Leading(a.Options(), |a.Options()|) + CountedLettersOf(a.children)
  }

  function CountedLettersOf(children: seq<Child>): nat
    decreases children, 0
  {
    if children == [] then 0
    else
      assert children[|children| - 1].argp < children[|children| - 1];
      CountedLettersOf(children[..|children| - 1]) + CountedLetters(children[|children| - 1].argp)
  }

  /** The letters that convert_options records. */
  function Letters(a: Argp): string
    decreases a, 1
  {
    LettersIn(a.Options(), |a.Options()|) + LettersOf(a.children)
  }

  function LettersOf(children: seq<Child>): string
    decreases children, 0
  {
    if children == [] then ""
    else
      assert children[|children| - 1].argp < children[|children| - 1];
      LettersOf(children[..|children| - 1]) + Letters(children[|children| - 1].argp)
  }

  /** In every option vector of a tree the short options come before all others. */
  ghost predicate ShortsLead(a: Argp)
    decreases a, 1
  {
    ShortsFirst(a.Options(), |a.Options()|) && ShortsLeadOf(a.children)
  }

  ghost predicate ShortsLeadOf(children: seq<Child>)
    decreases children, 0
  {
    children != [] ==>
      assert children[|children| - 1].argp < children[|children| - 1];
      ShortsLeadOf(children[..|children| - 1]) && ShortsLead(children[|children| - 1].argp)
  }

  /** As many letters are counted as are recorded exactly if the short options come first everywhere; otherwise more
      are recorded. */
  lemma {:induction false} LettersFit(a: Argp)
    ensures CountedLetters(a) <= |Letters(a)|
    ensures CountedLetters(a) == |Letters(a)| <==> ShortsLead(a)
    decreases a, 1
  {
    LeadingLetters(a.Options(), |a.Options()|);
    LettersOfFit(a.children);
  }

  lemma {:induction false} LettersOfFit(children: seq<Child>)
    ensures CountedLettersOf(children) <= |LettersOf(children)|
    ensures CountedLettersOf(children) == |LettersOf(children)| <==> ShortsLeadOf(children)
    decreases children, 0
  {
    if children != [] {
      LettersOfFit(children[..|children| - 1]);
      assert children[|children| - 1].argp < children[|children| - 1];
      LettersFit(children[|children| - 1].argp);
    }
  }

  // ----- calc_sizes -----

  datatype Sizes = Sizes(shortLen: nat, numGroups: nat, numChildInputs: nat)

  /** What calc_sizes adds for a tree, and for the first n children of an argp. */
  function SizesOf(a: Argp): Sizes {
    Sizes(CountedLetters(a), NumGroups(a), CountedSlots(a))
  }

  function SizesOfFirst(children: seq<Child>, n: nat): Sizes
    requires n <= |children|
  {
    Sizes(CountedLettersOf(children[..n]), NumGroupsOf(children[..n]), CountedSlotsOf(children[..n]))
  }

  function Plus(s: Sizes, t: Sizes): Sizes {
    Sizes(s.shortLen + t.shortLen, s.numGroups + t.numGroups, s.numChildInputs + t.numChildInputs)
  }

  method CalcSizes(argp: Argp, szs: Sizes) returns (r: Sizes)
    ensures r == Plus(szs, SizesOf(argp))
    decreases argp
  {
    r := szs;
    if argp.NeedsGroup() {
      var shorts := CountShorts(argp.Options());
      r := Sizes(r.shortLen + shorts, r.numGroups + 1, r.numChildInputs);
    }
    ghost var own := r;
    var i := 0;
    while i < |argp.children|
      invariant 0 <= i <= |argp.children|
      invariant r == Plus(own, SizesOfFirst(argp.children, i))
    {
      SizesOneMore(argp.children, i);
      assert argp.children[i].argp < argp.children[i];
      r := CalcSizes(argp.children[i].argp, r);
      r := r.(numChildInputs := r.numChildInputs + 1);
      i := i + 1;
    }
    assert argp.children[..i] == argp.children;
  }

  /** The loop of calc_sizes over the options. */
  method CountShorts(options: seq<ArgpOption>) returns (n: nat)
    ensures n == Leading(options, |options|)
  {
    n := 0;
    while n < |options| && options[n].IsShort()
      invariant n <= |options| && Leading(options, n) == n
    {
      n := n + 1;
    }
    if n < |options| {
      LeadingStops(options, n, |options|);
    }
  }

  lemma {:induction false} SizesOneMore(children: seq<Child>, i: nat)
    requires i < |children|
    ensures SizesOfFirst(children, i + 1)
            == Plus(Plus(SizesOfFirst(children, i), SizesOf(children[i].argp)), Sizes(0, 0, 1))
  {
    assert children[..i + 1][..i] == children[..i];
  }

  // ----- the layout -----

  /** The groups of a tree in preorder; the first of them has index `at`, and the slots from `slots` on are free. */
  function Layout(a: Argp, parent: Option<nat>, parentIndex: nat, at: nat, slots: nat): (r: seq<Group>)
    ensures |r| == NumGroups(a)
    decreases a, 1
  {
    if a.NeedsGroup() then
      [Group(a.Options(), a.hasParser, parent, parentIndex, slots, |a.children|)]
      + LayoutOf(a.children, Some(at), at + 1, slots + |a.children|)
    else LayoutOf(a.children, None, at, slots)
  }

  function LayoutOf(children: seq<Child>, parent: Option<nat>, at: nat, slots: nat): (r: seq<Group>)
    ensures |r| == NumGroupsOf(children)
    decreases children, 0
  {
    if children == [] then []
    else
      assert children[|children| - 1].argp < children[|children| - 1];
      var init := children[..|children| - 1];
      LayoutOf(init, parent, at, slots)
      + Layout(children[|children| - 1].argp, parent, |children| - 1, at + NumGroupsOf(init), slots + UsedSlotsOf(init))
  }

  /** s is `was` with t written over it from `at` on. */
  ghost predicate Overwritten<T>(s: seq<T>, was: seq<T>, at: nat, t: seq<T>) {
    && at + |t| <= |s| == |was|
    && forall k :: 0 <= k < |s| ==> s[k] == if at <= k < at + |t| then t[k - at] else was[k]
  }

  lemma OverwrittenTwice<T>(s': seq<T>, s: seq<T>, was: seq<T>, at: nat, t: seq<T>, next: nat, u: seq<T>)
    requires Overwritten(s, was, at, t) && next == at + |t| && Overwritten(s', s, next, u)
    ensures Overwritten(s', was, at, t + u)
  {
  }

  /** What is recorded with more letters; there is no string of letters except under ARGP_LONG_ONLY. */
  function Recorded(letters: Option<string>, more: string): Option<string> {
    if letters.Some? then Some(letters.value + more) else None
  }

  lemma NothingRecorded(letters: Option<string>)
    ensures Recorded(letters, "") == letters
  {
    if letters.Some? {
      assert letters.value + "" == letters.value;
    }
  }

  lemma RecordedTwice(letters: Option<string>, s: string, t: string)
    ensures Recorded(Recorded(letters, s), t) == Recorded(letters, s + t)
  {
    if letters.Some? {
      Joined(letters.value, s, t);
    }
  }

  /** convert_options: fills the group array from `at` on, records the letters, and returns the next free group and
      slot. */
  method ConvertOptions(argp: Argp, parent: Option<nat>, parentIndex: nat, groups: array<Group>, at: nat, slots: nat,
                        letters: Option<string>)
    returns (at': nat, slots': nat, letters': Option<string>)
    requires at + NumGroups(argp) <= groups.Length
    modifies groups
    ensures at' == at + NumGroups(argp) && slots' == slots + UsedSlots(argp)
    ensures letters' == Recorded(letters, Letters(argp))
    ensures Overwritten(groups[..], old(groups[..]), at, Layout(argp, parent, parentIndex, at, slots))
    decreases argp, 1
  {
    letters' := RecordShorts(argp.Options(), letters);
    RecordedTwice(letters, LettersIn(argp.Options(), |argp.Options()|), LettersOf(argp.children));
    if argp.NeedsGroup() {
      var group := Group(argp.Options(), argp.hasParser, parent, parentIndex, slots, |argp.children|);
      ghost var was := groups[..];
      groups[at] := group;
      ghost var before := groups[..];
      at', slots', letters' :=
        ConvertChildren(argp.children, Some(at), groups, at + 1, slots + |argp.children|, letters');
      OverwrittenTwice(groups[..], before, was, at, [group], at + 1,
                       LayoutOf(argp.children, Some(at), at + 1, slots + |argp.children|));
    } else {
      at', slots', letters' := ConvertChildren(argp.children, None, groups, at, slots, letters');
    }
  }

  /** The loop of convert_options over the options; a null vector has none. */
  method RecordShorts(options: seq<ArgpOption>, letters: Option<string>) returns (letters': Option<string>)
    ensures letters' == Recorded(letters, LettersIn(options, |options|))
  {
    letters' := letters;
    if letters.Some? {
      var short := letters.value;
      for i := 0 to |options|
        invariant short == letters.value + LettersIn(options, i)
      {
        if options[i].IsShort() {
          short := short + [options[i].key as char];
        }
      }
      letters' := Some(short);
    }
  }

  /** The first n children are converted. */
  ghost predicate ChildrenConverted(
    children: seq<Child>, n: nat, parent: Option<nat>, at: nat, slots: nat, letters: Option<string>,
    was: seq<Group>, now: seq<Group>, at': nat, slots': nat, letters': Option<string>)
    requires n <= |children|
  {
    && at' == at + NumGroupsOf(children[..n])
    && slots' == slots + UsedSlotsOf(children[..n])
    && letters' == Recorded(letters, LettersOf(children[..n]))
    && Overwritten(now, was, at, LayoutOf(children[..n], parent, at, slots))
  }

  /** The loop of convert_options over the children. */
  method ConvertChildren(children: seq<Child>, parent: Option<nat>, groups: array<Group>, at: nat, slots: nat,
                         letters: Option<string>)
    returns (at': nat, slots': nat, letters': Option<string>)
    requires at + NumGroupsOf(children) <= groups.Length
    modifies groups
    ensures at' == at + NumGroupsOf(children) && slots' == slots + UsedSlotsOf(children)
    ensures letters' == Recorded(letters, LettersOf(children))
    ensures Overwritten(groups[..], old(groups[..]), at, LayoutOf(children, parent, at, slots))
    decreases children, 0
  {
    at', slots', letters' := at, slots, letters;
    var index := 0;
    ghost var was := groups[..];
    NothingRecorded(letters);
    while index < |children|
      invariant 0 <= index <= |children|
      invariant ChildrenConverted(children, index, parent, at, slots, letters, was, groups[..], at', slots', letters')
    {
      at', slots', letters' :=
        ConvertChild(children, index, parent, groups, at', slots', letters', at, slots, letters, was);
      index := index + 1;
    }
    assert children[..index] == children;
  }

  method ConvertChild(children: seq<Child>, i: nat, parent: Option<nat>, groups: array<Group>, next: nat, free: nat,
                      soFar: Option<string>, ghost at: nat, ghost slots: nat, ghost letters: Option<string>,
                      ghost was: seq<Group>)
    returns (at': nat, slots': nat, letters': Option<string>)
    requires i < |children| && at + NumGroupsOf(children) <= groups.Length
    requires ChildrenConverted(children, i, parent, at, slots, letters, was, groups[..], next, free, soFar)
    modifies groups
    ensures ChildrenConverted(children, i + 1, parent, at, slots, letters, was, groups[..], at', slots', letters')
    decreases children[i]
  {
    ghost var before := groups[..];
    NumGroupsGrows(children, i + 1);
    OneMoreChild(children, i);
    at', slots', letters' := ConvertOptions(children[i].argp, parent, i, groups, next, free, soFar);
    ChildConverted(children, i, parent, at, slots, letters, was, before, groups[..], next, free, soFar,
                   at', slots', letters');
  }

  lemma {:induction false} ChildConverted(
    children: seq<Child>, i: nat, parent: Option<nat>, at: nat, slots: nat, letters: Option<string>,
    was: seq<Group>, before: seq<Group>, now: seq<Group>, next: nat, free: nat, soFar: Option<string>,
    at': nat, slots': nat, letters': Option<string>)
    requires i < |children|
    requires ChildrenConverted(children, i, parent, at, slots, letters, was, before, next, free, soFar)
    requires var a := children[i].argp;
             && at' == next + NumGroups(a) && slots' == free + UsedSlots(a) && letters' == Recorded(soFar, Letters(a))
             && Overwritten(now, before, next, Layout(a, parent, i, next, free))
    ensures ChildrenConverted(children, i + 1, parent, at, slots, letters, was, now, at', slots', letters')
  {
    OneMoreChild(children, i);
    OneMoreLayout(children, i, parent, at, slots);
    OverwrittenTwice(now, before, was, at, LayoutOf(children[..i], parent, at, slots), next,
                     Layout(children[i].argp, parent, i, next, free));
    RecordedTwice(letters, LettersOf(children[..i]), Letters(children[i].argp));
  }

  /** What one more child adds. */
  lemma {:induction false} OneMoreChild(children: seq<Child>, i: nat)
    requires i < |children|
    ensures NumGroupsOf(children[..i + 1]) == NumGroupsOf(children[..i]) + NumGroups(children[i].argp)
    ensures UsedSlotsOf(children[..i + 1]) == UsedSlotsOf(children[..i]) + UsedSlots(children[i].argp)
    ensures LettersOf(children[..i + 1]) == LettersOf(children[..i]) + Letters(children[i].argp)
  {
    assert children[..i + 1][..i] == children[..i];
  }

  lemma {:induction false} OneMoreLayout(children: seq<Child>, i: nat, parent: Option<nat>, at: nat, slots: nat)
    requires i < |children|
    ensures LayoutOf(children[..i + 1], parent, at, slots)
            == LayoutOf(children[..i], parent, at, slots)
               + Layout(children[i].argp, parent, i, at + NumGroupsOf(children[..i]),
                        slots + UsedSlotsOf(children[..i]))
  {
    assert children[..i + 1][..i] == children[..i];
  }

  lemma {:induction false} NumGroupsGrows(children: seq<Child>, n: nat)
    requires n <= |children|
    ensures NumGroupsOf(children[..n]) <= NumGroupsOf(children)
    decreases |children|
  {
    if n < |children| {
      NumGroupsGrows(children[..|children| - 1], n);
      assert children[..|children| - 1][..n] == children[..n];
    } else {
      assert children[..n] == children;
    }
  }

  // ----- what the layout guarantees -----

  /** The slots of a group. */
  predicate Owns(g: Group, slot: nat) {
    g.slots <= slot < g.slots + g.numChildren
  }

  /** A run of groups that starts at index `at` and owns the slots from `slots` up to `end`: parents come first and
      have a slot for the child, and no two groups share a slot. */
  ghost predicate WellLaid(groups: seq<Group>, parent: Option<nat>, width: nat, at: nat, slots: nat, end: nat) {
    && (forall k :: 0 <= k < |groups| ==> slots <= groups[k].slots && groups[k].slots + groups[k].numChildren <= end)
    && (forall k :: 0 <= k < |groups| && groups[k].parent.Some? ==> ParentBefore(groups, parent, width, at, k))
    && (forall j, k :: 0 <= j < k < |groups| ==> groups[j].slots + groups[j].numChildren <= groups[k].slots)
  }

  /** The parent of group k is the given one, or lies before it in the run; it has room for the child. */
  ghost predicate ParentBefore(groups: seq<Group>, parent: Option<nat>, width: nat, at: nat, k: nat)
    requires k < |groups| && groups[k].parent.Some?
  {
    var p := groups[k].parent.value;
    || (Some(p) == parent && groups[k].parentIndex < width)
    || (at <= p < at + k && groups[k].parentIndex < groups[p - at].numChildren)
  }

  lemma {:induction false} LayoutWellLaid(
    a: Argp, parent: Option<nat>, parentIndex: nat, width: nat, at: nat, slots: nat)
    requires parent.Some? ==> parentIndex < width
    ensures WellLaid(Layout(a, parent, parentIndex, at, slots), parent, width, at, slots, slots + UsedSlots(a))
    decreases a, 1
  {
    if a.NeedsGroup() {
      var below := LayoutOf(a.children, Some(at), at + 1, slots + |a.children|);
      LayoutOfWellLaid(a.children, Some(at), |a.children|, at + 1, slots + |a.children|);
      WellLaidUnderRoot(Layout(a, parent, parentIndex, at, slots)[0], below, parent, width, at, slots,
                        slots + UsedSlots(a));
    } else {
      LayoutOfWellLaid(a.children, None, width, at, slots);
      WellLaidWithoutParent(LayoutOf(a.children, None, at, slots), parent, width, at, slots, slots + UsedSlots(a));
    }
  }

  lemma {:induction false} LayoutOfWellLaid(
    children: seq<Child>, parent: Option<nat>, width: nat, at: nat, slots: nat)
    requires parent.Some? ==> |children| <= width
    ensures WellLaid(LayoutOf(children, parent, at, slots), parent, width, at, slots, slots + UsedSlotsOf(children))
    decreases children, 0
  {
    if children != [] {
      var init, last := children[..|children| - 1], children[|children| - 1];
      assert last.argp < last;
      LayoutOfWellLaid(init, parent, width, at, slots);
      var at', slots' := at + NumGroupsOf(init), slots + UsedSlotsOf(init);
      LayoutWellLaid(last.argp, parent, |init|, width, at', slots');
      var before, own := LayoutOf(init, parent, at, slots), Layout(last.argp, parent, |init|, at', slots');
      assert LayoutOf(children, parent, at, slots) == before + own;
      WellLaidJoined(before, own, parent, width, at, slots, slots', slots' + UsedSlots(last.argp));
    }
  }

  lemma WellLaidWithoutParent(groups: seq<Group>, parent: Option<nat>, width: nat, at: nat, slots: nat, end: nat)
    requires WellLaid(groups, None, width, at, slots, end)
    ensures WellLaid(groups, parent, width, at, slots, end)
  {
    forall k | 0 <= k < |groups| && groups[k].parent.Some?
      ensures ParentBefore(groups, parent, width, at, k)
    {
      assert ParentBefore(groups, None, width, at, k);
    }
  }

  lemma WellLaidUnderRoot(
    root: Group, below: seq<Group>, parent: Option<nat>, width: nat, at: nat, slots: nat, end: nat)
    requires WellLaid(below, Some(at), root.numChildren, at + 1, slots + root.numChildren, end)
    requires root.slots == slots && slots + root.numChildren <= end
    requires root.parent == parent && (parent.Some? ==> root.parentIndex < width)
    ensures WellLaid([root] + below, parent, width, at, slots, end)
  {
    var groups := [root] + below;
    forall k | 0 <= k < |groups| && groups[k].parent.Some?
      ensures ParentBefore(groups, parent, width, at, k)
    {
      if k > 0 {
        assert groups[k] == below[k - 1] && ParentBefore(below, Some(at), root.numChildren, at + 1, k - 1);
      }
    }
  }

  lemma WellLaidJoined(
    left: seq<Group>, right: seq<Group>, parent: Option<nat>, width: nat, at: nat, slots: nat, middle: nat, end: nat)
    requires slots <= middle <= end
    requires WellLaid(left, parent, width, at, slots, middle)
    requires WellLaid(right, parent, width, at + |left|, middle, end)
    ensures WellLaid(left + right, parent, width, at, slots, end)
  {
    var groups := left + right;
    forall k | 0 <= k < |groups| && groups[k].parent.Some?
      ensures ParentBefore(groups, parent, width, at, k)
    {
      if k < |left| {
        assert groups[k] == left[k] && ParentBefore(left, parent, width, at, k);
      } else {
        assert groups[k] == right[k - |left|] && ParentBefore(right, parent, width, at + |left|, k - |left|);
      }
    }
  }

  /** Groups as parser_convert leaves them, within as many slots as calc_sizes counted. */
  ghost predicate Converted(groups: seq<Group>, numSlots: nat) {
    WellLaid(groups, None, 0, 0, 0, numSlots)
  }

  /** calc_sizes and convert_options agree: the tree gives exactly the groups counted, within the slots counted. */
  lemma ConvertedTree(a: Argp)
    ensures |Layout(a, None, 0, 0, 0)| == NumGroups(a)
    ensures Converted(Layout(a, None, 0, 0, 0), CountedSlots(a))
  {
    LayoutWellLaid(a, None, 0, 0, 0, 0);
    UsedWithinCounted(a);
  }

  // ----- the first pass of parser_init -----

  /** The answer of a user parser to ARGP_KEY_INIT: an error code, and what it leaves in its child-input slots. */
  datatype InitReply = InitReply(err: Err, leaves: nat -> int)

  type InitReplies = (nat, int) -> InitReply

  /** What a group leaves for its i-th child: its parser's choice, or its own input for the first child. */
  function ChildInput(groups: seq<Group>, init: InitReplies, g: nat, input: int, i: nat): int
    requires g < |groups|
  {
    if groups[g].hasParser then init(g, input).leaves(i)
    else if i == 0 then input
    else 0
  }

  /** The input every group should start with: the root's, or what the parent's parser left for this child. */
  function InputOf(groups: seq<Group>, init: InitReplies, root: int, g: nat): int
    requires g < |groups| && WellLaidParents(groups)
  {
    match groups[g].parent
    case None => if g == 0 then root else 0
    case Some(p) => ChildInput(groups, init, p, InputOf(groups, init, root, p), groups[g].parentIndex)
  }

  predicate WellLaidParents(groups: seq<Group>) {
    forall g :: 0 <= g < |groups| && groups[g].parent.Some? ==> groups[g].parent.value < g
  }

  lemma ConvertedParents(groups: seq<Group>, numSlots: nat)
    requires Converted(groups, numSlots)
    ensures WellLaidParents(groups)
    ensures forall g :: 0 <= g < |groups| && groups[g].parent.Some?
                        ==> groups[g].parentIndex < groups[groups[g].parent.value].numChildren
  {
    forall g | 0 <= g < |groups| && groups[g].parent.Some?
      ensures groups[g].parent.value < g && groups[g].parentIndex < groups[groups[g].parent.value].numChildren
    {
      assert ParentBefore(groups, None, 0, 0, g);
    }
  }

  /** The slots of the groups before `done` hold what these groups left there; the others are still null. */
  ghost predicate SlotsFilled(groups: seq<Group>, init: InitReplies, inputs: seq<int>, slots: seq<int>, done: nat) {
    && done <= |groups| == |inputs|
    && forall g, k :: 0 <= g < |groups| && 0 <= k < |slots| && Owns(groups[g], k)
                      ==> slots[k] == if g < done
                                      then ChildInput(groups, init, g, inputs[g], k - groups[g].slots) else 0
  }

  /** One more call keeps the slots of all other groups, because no two groups share a slot. */
  lemma SlotsAfterCall(
    groups: seq<Group>, init: InitReplies, inputs: seq<int>, slots: seq<int>,
    inputs': seq<int>, slots': seq<int>, done: nat)
    requires Converted(groups, |slots|) && SlotsFilled(groups, init, inputs, slots, done) && done < |groups|
    requires |inputs'| == |inputs| && |slots'| == |slots|
    requires forall g :: 0 <= g < |inputs| && g != done ==> inputs'[g] == inputs[g]
    requires forall k :: 0 <= k < |slots| ==> slots'[k] == AfterInit(groups, init, done, inputs'[done], slots, k)
    ensures SlotsFilled(groups, init, inputs', slots', done + 1)
  {
    forall g, k | 0 <= g < |groups| && 0 <= k < |slots'| && Owns(groups[g], k)
      ensures slots'[k] == if g < done + 1 then ChildInput(groups, init, g, inputs'[g], k - groups[g].slots) else 0
    {
      if g != done {
        assert !Owns(groups[done], k);
      }
    }
  }

  /** The content of slot k after the call of group g. */
  function AfterInit(groups: seq<Group>, init: InitReplies, g: nat, input: int, slots: seq<int>, k: nat): int
    requires g < |groups| && k < |slots|
  {
    if !Owns(groups[g], k) then slots[k]
    else if groups[g].hasParser then init(g, input).leaves(k - groups[g].slots)
    else if k == groups[g].slots then input
    else slots[k]
  }

  /** parser_init's pass over the groups: every group gets the input its parent chose for it, although inputs,
      slots and calls are interleaved in one forward pass. */
  method InitPass(groups: seq<Group>, init: InitReplies, root: int, inputs: array<int>, childInputs: array<int>)
    returns (err: Err, done: nat)
    requires Converted(groups, childInputs.Length)
    requires inputs.Length == |groups| && inputs != childInputs
    requires forall i :: 0 <= i < inputs.Length ==> inputs[i] == 0
    requires forall i :: 0 <= i < childInputs.Length ==> childInputs[i] == 0
    modifies inputs, childInputs
    ensures done <= |groups| && WellLaidParents(groups)
    ensures forall g :: 0 <= g < done ==> inputs[g] == InputOf(groups, init, root, g)
    ensures err == Ok ==> done == |groups|
    ensures err != Ok ==> err != BadKey && 0 < done && groups[done - 1].hasParser
                          && err == init(done - 1, inputs[done - 1]).err
  {
    ConvertedParents(groups, childInputs.Length);
    err, done := Ok, 0;
    if |groups| > 0 {
      inputs[0] := root;
    }
    while done < |groups| && (err == Ok || err == BadKey)
      invariant 0 <= done <= |groups|
      invariant InputsGiven(groups, init, root, inputs[..], done)
      invariant SlotsFilled(groups, init, inputs[..], childInputs[..], done)
      invariant err != Ok && err != BadKey
                ==> 0 < done && groups[done - 1].hasParser && err == init(done - 1, inputs[done - 1]).err
    {
      err := InitOne(groups, init, root, inputs, childInputs, done);
      done := done + 1;
    }
    if err == BadKey {
      err := Ok;
    }
  }

  /** The groups before `done` have the inputs they should have; the others have what they started with. */
  ghost predicate InputsGiven(groups: seq<Group>, init: InitReplies, root: int, inputs: seq<int>, done: nat) {
    && WellLaidParents(groups) && done <= |groups| == |inputs|
    && (forall g :: 0 <= g < done ==> inputs[g] == InputOf(groups, init, root, g))
    && forall g :: done <= g < |groups| ==> inputs[g] == if g == 0 then root else 0
  }

  /** One turn of the pass. */
  method InitOne(groups: seq<Group>, init: InitReplies, root: int, inputs: array<int>, childInputs: array<int>,
                 g: nat) returns (err: Err)
    requires g < |groups| && Converted(groups, childInputs.Length) && inputs != childInputs
    requires InputsGiven(groups, init, root, inputs[..], g)
    requires SlotsFilled(groups, init, inputs[..], childInputs[..], g)
    modifies inputs, childInputs
    ensures InputsGiven(groups, init, root, inputs[..], g + 1)
    ensures SlotsFilled(groups, init, inputs[..], childInputs[..], g + 1)
    ensures err == if groups[g].hasParser then init(g, inputs[g]).err else BadKey
  {
    ghost var inputsBefore, slotsBefore := inputs[..], childInputs[..];
    var group := groups[g];
    if group.parent.Some? {
      ghost var _ := ParentsSlot(groups, init, inputs[..], childInputs[..], g);
      inputs[g] := childInputs[groups[group.parent.value].slots + group.parentIndex];
    }
    assert inputs[g] == InputOf(groups, init, root, g);
    err := InitGroup(groups, init, g, inputs[g], childInputs);
    SlotsAfterCall(groups, init, inputsBefore, slotsBefore, inputs[..], childInputs[..], g);
  }

  /** The slot that a group takes its input from. */
  lemma ParentsSlot(groups: seq<Group>, init: InitReplies, inputs: seq<int>, slots: seq<int>, g: nat)
    returns (slot: nat)
    requires Converted(groups, |slots|) && SlotsFilled(groups, init, inputs, slots, g) && g < |groups|
    requires groups[g].parent.Some?
    ensures var p := groups[g].parent.value;
            && p < g && slot == groups[p].slots + groups[g].parentIndex < |slots|
            && slots[slot] == ChildInput(groups, init, p, inputs[p], groups[g].parentIndex)
  {
    ConvertedParents(groups, |slots|);
    slot := groups[groups[g].parent.value].slots + groups[g].parentIndex;
    assert Owns(groups[groups[g].parent.value], slot);
  }

  /** One call with ARGP_KEY_INIT; a group without a parser hands its input on to its first child. */
  method InitGroup(groups: seq<Group>, init: InitReplies, g: nat, input: int, childInputs: array<int>)
    returns (err: Err)
    requires g < |groups| && groups[g].slots + groups[g].numChildren <= childInputs.Length
    modifies childInputs
    ensures err == if groups[g].hasParser then init(g, input).err else BadKey
    ensures forall k :: 0 <= k < childInputs.Length
                        ==> childInputs[k] == AfterInit(groups, init, g, input, old(childInputs[..]), k)
  {
    var group := groups[g];
    if group.hasParser {
      var r := init(g, input);
      forall k | group.slots <= k < group.slots + group.numChildren {
        childInputs[k] := r.leaves(k - group.slots);
      }
      return r.err;
    }
    if group.numChildren > 0 {
      childInputs[group.slots] := input;
    }
    return BadKey;
  }
}
