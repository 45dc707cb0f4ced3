/**
 Which input every parser of an argp tree starts with, said about the tree alone: what its parent left for it. The array
 of groups, in which parents and slots are numbers, must hand out the same.
 */
module ArgpInputs {
  import opened Optional
  import opened ArgpModel
  import opened ArgpState
  import opened ArgpGroups

  /** The place of an argp in a tree: the numbers of the children on the way from the root. */
  type Path = seq<nat>

  /** The answer to ARGP_KEY_INIT of the parser at this place, for this input. */
  type PathReplies = (Path, int) -> InitReply

  /** The places of the argps that have a group, in preorder. */
  function Paths(a: Argp, path: Path): (r: seq<Path>)
    ensures |r| == NumGroups(a)
    decreases a, 1
  {
    (if a.NeedsGroup() then [path] else []) + PathsOf(a.children, path)
  }

  function PathsOf(children: seq<Child>, path: Path): (r: seq<Path>)
    ensures |r| == NumGroupsOf(children)
    decreases children, 0
  {
    if children == [] then []
    else
      assert children[|children| - 1].argp < children[|children| - 1];
      var init := children[..|children| - 1];
      PathsOf(init, path) + Paths(children[|children| - 1].argp, path + [|init|])
  }

  /** What an argp leaves for its child number i: its parser's choice; without a parser, its own input for the first
      child; and nothing if it has no group. */
  function LeftFor(a: Argp, path: Path, input: int, reply: PathReplies, i: nat): int {
    if !a.NeedsGroup() then 0
    else if a.hasParser then reply(path, input).leaves(i)
    else if i == 0 then input
    else 0
  }

  /** The inputs of the argps with a group, in preorder, below one that gets this input. */
  function Inputs(a: Argp, path: Path, input: int, reply: PathReplies): (r: seq<int>)
    ensures |r| == NumGroups(a)
    decreases a, 1
  {
    (if a.NeedsGroup() then [input] else []) + InputsOf(a, a.children, path, input, reply)
  }

  function InputsOf(a: Argp, children: seq<Child>, path: Path, input: int, reply: PathReplies): (r: seq<int>)
    ensures |r| == NumGroupsOf(children)
    decreases children, 0
  {
    if children == [] then []
    else
      assert children[|children| - 1].argp < children[|children| - 1];
      var i := |children| - 1;
      InputsOf(a, children[..i], path, input, reply)
      + Inputs(children[i].argp, path + [i], LeftFor(a, path, input, reply, i), reply)
  }

  /** The inputs of a whole tree: the first argp with a group gets the caller's input. */
  function RootInputs(a: Argp, path: Path, root: int, reply: PathReplies): (r: seq<int>)
    ensures |r| == NumGroups(a)
    decreases a, 1
  {
    if a.NeedsGroup() then Inputs(a, path, root, reply) else RootInputsOf(a.children, path, root, reply)
  }

  function RootInputsOf(children: seq<Child>, path: Path, root: int, reply: PathReplies): (r: seq<int>)
    ensures |r| == NumGroupsOf(children)
    decreases children, 0
  {
    if children == [] then []
    else
      assert children[|children| - 1].argp < children[|children| - 1];
      var i := |children| - 1;
      var before := RootInputsOf(children[..i], path, root, reply);
      if before == [] then RootInputs(children[i].argp, path + [i], root, reply)
      else before + Inputs(children[i].argp, path + [i], 0, reply)
  }

  // ----- the array of groups hands out the same -----

  /** The elements from a place on are these. */
  ghost predicate HoldsAt<T>(s: seq<T>, at: nat, t: seq<T>) {
    at + |t| <= |s| && forall k :: 0 <= k < |t| ==> s[at + k] == t[k]
  }

  lemma HoldsParts<T>(s: seq<T>, at: nat, t: seq<T>, u: seq<T>)
    requires HoldsAt(s, at, t + u)
    ensures HoldsAt(s, at, t) && HoldsAt(s, at + |t|, u)
  {
    forall k | 0 <= k < |t|
      ensures s[at + k] == t[k]
    {
      assert (t + u)[k] == t[k];
    }
    forall k | 0 <= k < |u|
      ensures s[at + |t| + k] == u[k]
    {
      assert s[at + (|t| + k)] == (t + u)[|t| + k];
    }
  }

  lemma HoldsOne<T>(s: seq<T>, at: nat, x: T)
    ensures HoldsAt(s, at, [x]) <==> at < |s| && s[at] == x
  {
    assert HoldsAt(s, at, [x]) ==> s[at + 0] == [x][0];
  }

  lemma HoldsJoined<T>(s: seq<T>, at: nat, t: seq<T>, u: seq<T>)
    requires HoldsAt(s, at, t) && HoldsAt(s, at + |t|, u)
    ensures HoldsAt(s, at, t + u)
  {
    forall k | 0 <= k < |t + u|
      ensures s[at + k] == (t + u)[k]
    {
      if k >= |t| {
        assert s[at + |t| + (k - |t|)] == u[k - |t|];
      }
    }
  }

  /** The parsers answer by their places in the tree, although they are called by the numbers of their groups. */
  ghost predicate Answers(init: InitReplies, reply: PathReplies, paths: seq<Path>) {
    forall g, x :: 0 <= g < |paths| ==> init(g, x) == reply(paths[g], x)
  }

  /** The inputs of all groups. */
  function AllInputs(groups: seq<Group>, init: InitReplies, root: int): (r: seq<int>)
    requires WellLaidParents(groups)
    ensures |r| == |groups|
  {
    seq(|groups|, g requires 0 <= g < |groups| => InputOf(groups, init, root, g))
  }

  /** What a run of groups is for: the array, and the answers of the parsers in it. */
  datatype World = World(groups: seq<Group>, init: InitReplies, root: int, paths: seq<Path>, reply: PathReplies)
  {
    ghost predicate Valid() {
      WellLaidParents(groups) && |paths| == |groups| && Answers(init, reply, paths)
    }
  }

  lemma {:induction false} InputsOfLayout(
    w: World, a: Argp, path: Path, parent: Option<nat>, parentIndex: nat, at: nat, slots: nat, input: int)
    requires w.Valid()
    requires HoldsAt(w.groups, at, Layout(a, parent, parentIndex, at, slots)) && HoldsAt(w.paths, at, Paths(a, path))
    requires at == 0 ==> a.NeedsGroup()
    requires match parent
             case Some(p) =>
               && p < at
               && input == ChildInput(w.groups, w.init, p, InputOf(w.groups, w.init, w.root, p), parentIndex)
             case None => input == if at == 0 then w.root else 0
    ensures HoldsAt(AllInputs(w.groups, w.init, w.root), at, Inputs(a, path, input, w.reply))
    decreases a, 1
  {
    if a.NeedsGroup() {
      var below := LayoutOf(a.children, Some(at), at + 1, slots + |a.children|);
      GroupHeld(w, Group(a.Options(), a.hasParser, parent, parentIndex, slots, |a.children|), below,
                path, PathsOf(a.children, path), at);
      InputsOfChildren(w, a, a.children, path, Some(at), at + 1, slots + |a.children|, input);
      HoldsJoined(AllInputs(w.groups, w.init, w.root), at, [input], InputsOf(a, a.children, path, input, w.reply));
    } else {
      assert Paths(a, path) == [] + PathsOf(a.children, path) == PathsOf(a.children, path);
      InputsOfChildren(w, a, a.children, path, None, at, slots, input);
      assert Inputs(a, path, input, w.reply) == InputsOf(a, a.children, path, input, w.reply);
    }
  }

  /** The array holds a group, and what is below it behind it. */
  lemma {:induction false} GroupHeld(w: World, group: Group, below: seq<Group>, path: Path, paths: seq<Path>, at: nat)
    requires w.Valid() && HoldsAt(w.groups, at, [group] + below) && HoldsAt(w.paths, at, [path] + paths)
    ensures HoldsAt(w.groups, at + 1, below) && HoldsAt(w.paths, at + 1, paths)
    ensures w.groups[at] == group && w.paths[at] == path
    ensures HoldsAt(AllInputs(w.groups, w.init, w.root), at, [InputOf(w.groups, w.init, w.root, at)])
  {
    HoldsParts(w.groups, at, [group], below);
    HoldsParts(w.paths, at, [path], paths);
    HoldsOne(w.groups, at, group);
    HoldsOne(w.paths, at, path);
    HoldsOne(AllInputs(w.groups, w.init, w.root), at, InputOf(w.groups, w.init, w.root, at));
  }

  lemma {:induction false} InputsOfChildren(
    w: World, a: Argp, children: seq<Child>, path: Path, parent: Option<nat>, at: nat, slots: nat, input: int)
    requires w.Valid() && 0 < at
    requires HoldsAt(w.groups, at, LayoutOf(children, parent, at, slots))
    requires HoldsAt(w.paths, at, PathsOf(children, path))
    requires match parent
             case Some(p) =>
               && a.NeedsGroup() && p < at <= |w.groups| && w.groups[p].hasParser == a.hasParser && w.paths[p] == path
               && InputOf(w.groups, w.init, w.root, p) == input
             case None => !a.NeedsGroup()
    ensures HoldsAt(AllInputs(w.groups, w.init, w.root), at, InputsOf(a, children, path, input, w.reply))
    decreases children, 0
  {
    if children != [] {
      var i := |children| - 1;
      var init, last := children[..i], children[i];
      assert last.argp < last;
      var at', slots' := at + NumGroupsOf(init), slots + UsedSlotsOf(init);
      HoldsParts(w.groups, at, LayoutOf(init, parent, at, slots), Layout(last.argp, parent, i, at', slots'));
      HoldsParts(w.paths, at, PathsOf(init, path), Paths(last.argp, path + [i]));
      InputsOfChildren(w, a, init, path, parent, at, slots, input);
      InputsOfLayout(w, last.argp, path + [i], parent, i, at', slots', LeftFor(a, path, input, w.reply, i));
      HoldsJoined(AllInputs(w.groups, w.init, w.root), at, InputsOf(a, init, path, input, w.reply),
                  Inputs(last.argp, path + [i], LeftFor(a, path, input, w.reply, i), w.reply));
    }
  }

  lemma {:induction false} RootInputsOfLayout(w: World, a: Argp, path: Path, parentIndex: nat, slots: nat)
    requires w.Valid()
    requires HoldsAt(w.groups, 0, Layout(a, None, parentIndex, 0, slots)) && HoldsAt(w.paths, 0, Paths(a, path))
    ensures HoldsAt(AllInputs(w.groups, w.init, w.root), 0, RootInputs(a, path, w.root, w.reply))
    decreases a, 1
  {
    if a.NeedsGroup() {
      InputsOfLayout(w, a, path, None, parentIndex, 0, slots, w.root);
    } else {
      assert Paths(a, path) == [] + PathsOf(a.children, path) == PathsOf(a.children, path);
      RootInputsOfChildren(w, a.children, path, slots);
    }
  }

  lemma {:induction false} RootInputsOfChildren(w: World, children: seq<Child>, path: Path, slots: nat)
    requires w.Valid()
    requires HoldsAt(w.groups, 0, LayoutOf(children, None, 0, slots)) && HoldsAt(w.paths, 0, PathsOf(children, path))
    ensures HoldsAt(AllInputs(w.groups, w.init, w.root), 0, RootInputsOf(children, path, w.root, w.reply))
    decreases children, 0
  {
    if children != [] {
      var i := |children| - 1;
      var init, last := children[..i], children[i];
      assert last.argp < last;
      var at', slots' := NumGroupsOf(init), slots + UsedSlotsOf(init);
      HoldsParts(w.groups, 0, LayoutOf(init, None, 0, slots), Layout(last.argp, None, i, at', slots'));
      HoldsParts(w.paths, 0, PathsOf(init, path), Paths(last.argp, path + [i]));
      RootInputsOfChildren(w, init, path, slots);
      if at' == 0 {
        RootInputsOfLayout(w, last.argp, path + [i], i, slots');
      } else {
        InputsOfLayout(w, last.argp, path + [i], None, i, at', slots', 0);
        HoldsJoined(AllInputs(w.groups, w.init, w.root), 0, RootInputsOf(init, path, w.root, w.reply),
                    Inputs(last.argp, path + [i], 0, w.reply));
      }
    }
  }

  /** In the layout of a tree every group has the input that the tree says. */
  lemma LayoutGivesInputs(a: Argp, init: InitReplies, root: int, reply: PathReplies)
    requires Answers(init, reply, Paths(a, []))
    ensures var groups := Layout(a, None, 0, 0, 0);
            WellLaidParents(groups) && AllInputs(groups, init, root) == RootInputs(a, [], root, reply)
  {
    var groups := Layout(a, None, 0, 0, 0);
    ConvertedTree(a);
    ConvertedParents(groups, CountedSlots(a));
    RootInputsOfLayout(World(groups, init, root, Paths(a, []), reply), a, [], 0, 0);
  }

  /** calc_sizes and parser_convert. */
  method ParserConvert(a: Argp) returns (groups: seq<Group>, numSlots: nat)
    ensures groups == Layout(a, None, 0, 0, 0) && numSlots == CountedSlots(a)
  {
    var szs := CalcSizes(a, Sizes(0, 0, 0));
    var storage := new Group[szs.numGroups](_ => Group([], false, None, 0, 0, 0));
    var _, _, _ := ConvertOptions(a, None, 0, storage, 0, 0, None);
    return storage[..], szs.numChildInputs;
  }

  /** The answers by the numbers of the groups. */
  function ByNumber(paths: seq<Path>, reply: PathReplies): InitReplies {
    (g: nat, x) => if g < |paths| then reply(paths[g], x) else InitReply(Ok, _ => 0)
  }

  /** parser_convert and the first pass of parser_init: every parser up to the first error starts with the input that
      its parent in the tree left for it. */
  method ParserInit(a: Argp, reply: PathReplies, root: int) returns (err: Err, done: nat, inputs: seq<int>)
    ensures done <= |inputs| == NumGroups(a) && (err == Ok ==> done == |inputs|)
    ensures forall g :: 0 <= g < done ==> inputs[g] == RootInputs(a, [], root, reply)[g]
    ensures err != Ok ==> err != BadKey && 0 < done
                          && err == reply(Paths(a, [])[done - 1], RootInputs(a, [], root, reply)[done - 1]).err
  {
    var groups, numSlots := ParserConvert(a);
    ConvertedTree(a);
    var init := ByNumber(Paths(a, []), reply);
    var found := new int[|groups|](_ => 0);
    var childInputs := new int[numSlots](_ => 0);
    err, done := InitPass(groups, init, root, found, childInputs);
    inputs := found[..];
    LayoutGivesInputs(a, init, root, reply);
    assert forall g :: 0 <= g < |groups| ==> AllInputs(groups, init, root)[g] == InputOf(groups, init, root, g);
  }

  /** A root whose parser leaves 10 for its first and 11 for its second child. */
  lemma SecondChildGetsItsOwn(reply: PathReplies)
    requires reply([], 1).leaves(0) == 10 && reply([], 1).leaves(1) == 11
    ensures var leaf := Argp(None, true, None, []);
            RootInputs(Argp(None, true, None, [Child(leaf, 0, false), Child(leaf, 0, false)]), [], 1, reply)
            == [1, 10, 11]
  {
    var leaf := Argp(None, true, None, []);
    var children := [Child(leaf, 0, false), Child(leaf, 0, false)];
    var a := Argp(None, true, None, children);
    assert children[..1] == [children[0]] && [children[0]][..0] == [];
    assert forall path: Path, x :: Inputs(leaf, path, x, reply) == [x];
    assert InputsOf(a, [children[0]], [], 1, reply) == [10];
    assert InputsOf(a, children, [], 1, reply) == [10, 11];
  }
}
