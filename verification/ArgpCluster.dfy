/**
 The order of option clusters in a help listing (argp-help.c): clusters form a forest by their parent links, and two
 of them are compared at the point where their chains of ancestors meet.
 */
module ArgpCluster {
  import opened Optional
  import opened ArgpModel

  /** group_cmp: 0, 1, 2, ..., n, -m, ..., -2, -1. */
  function GroupCmp(group1: int, group2: int, eq: int): int {
    if group1 == group2 then eq
    else if (group1 < 0 && group2 < 0) || (group1 >= 0 && group2 >= 0) then group1 - group2
    else group2 - group1
  }

  /** The order of groups: the non-negative ones first, each kind in increasing order. */
  predicate GroupLess(g: int, h: int) {
    if (g >= 0) == (h >= 0) then g < h else g >= 0
  }

  lemma GroupCmpIsOrder(g: int, h: int, eq: int)
    ensures GroupCmp(g, h, eq) < 0 <==> GroupLess(g, h) || (g == h && eq < 0)
    ensures GroupCmp(g, h, eq) > 0 <==> GroupLess(h, g) || (g == h && eq > 0)
    ensures GroupCmp(g, h, eq) == -GroupCmp(h, g, -eq)
  {
  }

  class HolCluster {
    const group: int
    const index: int
    const parent: HolCluster?
    const depth: nat

    /** hol_add_cluster. */
    constructor (group: int, index: int, parent: HolCluster?)
      requires parent != null ==> parent.Valid()
      ensures this.group == group && this.index == index && this.parent == parent && Valid()
    {
      this.group := group;
      this.index := index;
      this.parent := parent;
      depth := if parent != null then parent.depth + 1 else 0;
    }

    /** The depth is the length of the chain of parents. */
    ghost predicate Valid()
      decreases depth
    {
      if parent == null then depth == 0 else depth == parent.depth + 1 && parent.Valid()
    }

    /** The chain of ancestors from the root down to this cluster. */
    ghost function Chain(): (r: seq<HolCluster>)
      requires Valid()
      ensures |r| == depth + 1 && r[depth] == this
      decreases depth
    {
      if parent == null then [this] else parent.Chain() + [this]
    }

    ghost function Key(): (int, int) {
      (group, index)
    }

    /** The keys along the chain of ancestors. */
    ghost function Path(): (r: seq<(int, int)>)
      requires Valid()
      ensures |r| == depth + 1 && forall k :: 0 <= k <= depth ==> r[k] == Chain()[k].Key()
      decreases depth
    {
      if parent == null then [Key()] else parent.Path() + [Key()]
    }
  }

  /** Clusters with the same parent: by group, then by descending index. */
  ghost function NodeCmp(c: HolCluster, d: HolCluster): int {
    GroupCmp(c.group, d.group, d.index - c.index)
  }

  /** Climbing from the same depth to the point where both have the same parent. */
  ghost function Compare(c: HolCluster, d: HolCluster): int
    requires c.Valid() && d.Valid() && c.depth == d.depth
    decreases c.depth
  {
    if c.parent == d.parent then NodeCmp(c, d) else Compare(c.parent, d.parent)
  }

  /** hol_cluster_cmp, with None for following a null parent. The first two loops climb from the cluster that is
      closer to the root, so the depths drift apart until that chain of parents ends: only clusters of equal depth
      are compared at all. */
  method ClusterCmp(c: HolCluster, d: HolCluster) returns (r: Option<int>)
    requires c.Valid() && d.Valid()
    ensures r.Some? <==> c.depth == d.depth
    ensures r.Some? ==> r.value == Compare(c, d)
  {
    var cl1: HolCluster?, cl2: HolCluster? := c, d;
    while cl1 != null && cl1.depth < cl2.depth
      invariant cl2 == d
      invariant cl1 != null ==> cl1.Valid() && cl1.depth <= c.depth && (c.depth >= d.depth ==> cl1 == c)
      invariant cl1 == null ==> c.depth < d.depth
      decreases cl1 != null, if cl1 != null then cl1.depth else 0
    {
      cl1 := cl1.parent;
    }
    if cl1 == null {
      return None;
    }
    while cl2 != null && cl2.depth < cl1.depth
      invariant cl1 == c
      invariant cl2 != null ==> cl2.Valid() && cl2.depth <= d.depth && (d.depth >= c.depth ==> cl2 == d)
      invariant cl2 == null ==> d.depth < c.depth
      decreases cl2 != null, if cl2 != null then cl2.depth else 0
    {
      cl2 := cl2.parent;
    }
    if cl2 == null {
      return None;
    }
    while cl1.parent != cl2.parent
      invariant cl1 != null && cl2 != null && cl1.Valid() && cl2.Valid() && cl1.depth == cl2.depth
      invariant c.depth == d.depth && Compare(cl1, cl2) == Compare(c, d)
      decreases cl1.depth
    {
      cl1, cl2 := cl1.parent, cl2.parent;
    }
    return Some(GroupCmp(cl1.group, cl2.group, cl2.index - cl1.index));
  }

  // ----- the order -----

  /** Two clusters of equal depth are compared at the first place where their chains of ancestors differ. */
  lemma {:induction false} ComparedWhereChainsPart(c: HolCluster, d: HolCluster)
    requires c.Valid() && d.Valid() && c.depth == d.depth
    ensures c == d ==> Compare(c, d) == 0
    ensures c != d ==> exists k: nat :: PartAt(c, d, k) && Compare(c, d) == NodeCmp(c.Chain()[k], d.Chain()[k])
    decreases c.depth
  {
    if c != d {
      if c.parent == d.parent {
        if c.parent != null {
          assert c.Chain()[..c.depth] == c.parent.Chain() == d.Chain()[..c.depth];
        }
        assert PartAt(c, d, c.depth);
      } else {
        ComparedWhereChainsPart(c.parent, d.parent);
        var k: nat :| PartAt(c.parent, d.parent, k)
                 && Compare(c.parent, d.parent) == NodeCmp(c.parent.Chain()[k], d.parent.Chain()[k]);
        assert c.Chain()[..k] == c.parent.Chain()[..k] && d.Chain()[..k] == d.parent.Chain()[..k];
        assert PartAt(c, d, k);
      }
    }
  }

  /** The chains agree before k and differ at k, where both clusters still have the same parent. */
  ghost predicate PartAt(c: HolCluster, d: HolCluster, k: nat)
    requires c.Valid() && d.Valid()
  {
    && k <= c.depth && k <= d.depth
    && c.Chain()[..k] == d.Chain()[..k] && c.Chain()[k] != d.Chain()[k]
    && c.Chain()[k].parent == d.Chain()[k].parent
  }

  /** The comparison is antisymmetric wherever it is defined. */
  lemma {:induction false} CompareAntisymmetric(c: HolCluster, d: HolCluster)
    requires c.Valid() && d.Valid() && c.depth == d.depth
    ensures Compare(c, d) == -Compare(d, c)
    decreases c.depth
  {
    if c.parent == d.parent {
      GroupCmpIsOrder(c.group, d.group, d.index - c.index);
    } else {
      CompareAntisymmetric(c.parent, d.parent);
    }
  }

  ghost predicate KeyLess(a: (int, int), b: (int, int)) {
    GroupLess(a.0, b.0) || (a.0 == b.0 && a.1 > b.1)
  }

  /** The lexicographic order of paths. */
  ghost predicate PathLess(p: seq<(int, int)>, q: seq<(int, int)>) {
    exists k: nat :: LessAt(p, q, k)
  }

  ghost predicate LessAt(p: seq<(int, int)>, q: seq<(int, int)>, k: nat) {
    k < |p| && k < |q| && p[..k] == q[..k] && KeyLess(p[k], q[k])
  }

  lemma PathLessTransitive(p: seq<(int, int)>, q: seq<(int, int)>, r: seq<(int, int)>)
    requires PathLess(p, q) && PathLess(q, r)
    ensures PathLess(p, r)
  {
    var i: nat :| LessAt(p, q, i);
    var j: nat :| LessAt(q, r, j);
    var k := if i < j then i else j;
    assert p[..k] == p[..i][..k] == q[..i][..k] == q[..j][..k] == r[..j][..k] == r[..k];
    if i < j {
      assert q[..j][i] == r[..j][i];
    } else if j < i {
      assert p[..i][j] == q[..i][j];
    }
    assert LessAt(p, r, k);
  }

  lemma PathLessIrreflexive(p: seq<(int, int)>, q: seq<(int, int)>)
    requires PathLess(p, q)
    ensures p != q && !PathLess(q, p)
  {
    if PathLess(q, p) {
      PathLessTransitive(p, q, p);
    }
  }

  /** Different clusters with the same parent have different (group, index). */
  ghost predicate SiblingsDiffer(s: set<HolCluster>) {
    && (forall c :: c in s ==> c.Valid() && (c.parent != null ==> c.parent in s))
    && forall c, d :: c in s && d in s && c != d && c.parent == d.parent ==> c.Key() != d.Key()
  }

  lemma {:induction false} ChainInside(s: set<HolCluster>, c: HolCluster, k: nat)
    requires SiblingsDiffer(s) && c in s && k <= c.depth
    ensures c.Chain()[k] in s
    decreases c.depth
  {
    if k < c.depth {
      ChainInside(s, c.parent, k);
    }
  }

  /** On clusters of equal depth the comparison is the lexicographic order of root paths, by group and then by
      descending index: a strict total order. */
  lemma CompareIsLexicographic(s: set<HolCluster>, c: HolCluster, d: HolCluster)
    requires SiblingsDiffer(s) && c in s && d in s && c.depth == d.depth
    ensures Compare(c, d) == 0 <==> c == d
    ensures Compare(c, d) < 0 <==> PathLess(c.Path(), d.Path())
    ensures Compare(c, d) > 0 <==> PathLess(d.Path(), c.Path())
  {
    ComparedWhereChainsPart(c, d);
    if c == d {
      if PathLess(c.Path(), d.Path()) {
        PathLessIrreflexive(c.Path(), d.Path());
      }
    } else {
      var k: nat :| PartAt(c, d, k) && Compare(c, d) == NodeCmp(c.Chain()[k], d.Chain()[k]);
      ChainInside(s, c, k);
      ChainInside(s, d, k);
      var a, b := c.Chain()[k], d.Chain()[k];
      GroupCmpIsOrder(a.group, b.group, b.index - a.index);
      SamePrefix(c, d, k);
      if Compare(c, d) < 0 {
        assert LessAt(c.Path(), d.Path(), k);
        PathLessIrreflexive(c.Path(), d.Path());
      } else {
        assert a.Key() != b.Key();
        assert LessAt(d.Path(), c.Path(), k);
        PathLessIrreflexive(d.Path(), c.Path());
      }
    }
  }

  lemma SamePrefix(c: HolCluster, d: HolCluster, k: nat)
    requires c.Valid() && d.Valid() && PartAt(c, d, k)
    ensures c.Path()[..k] == d.Path()[..k]
  {
    forall j | 0 <= j < k
      ensures c.Path()[j] == d.Path()[j]
    {
      assert c.Chain()[j] == c.Chain()[..k][j] == d.Chain()[..k][j] == d.Chain()[j];
    }
  }

  /** Hence the comparison is transitive on clusters of equal depth. */
  lemma CompareTransitive(s: set<HolCluster>, c: HolCluster, d: HolCluster, e: HolCluster)
    requires SiblingsDiffer(s) && c in s && d in s && e in s && c.depth == d.depth == e.depth
    requires Compare(c, d) < 0 && Compare(d, e) < 0
    ensures Compare(c, e) < 0
  {
    CompareIsLexicographic(s, c, d);
    CompareIsLexicographic(s, d, e);
    CompareIsLexicographic(s, c, e);
    PathLessTransitive(c.Path(), d.Path(), e.Path());
  }

  // ----- the clusters of a tree -----

  /** A cluster by its place in the order of creation. */
  datatype Node = Node(group: int, index: int, parent: Option<nat>)
  {
    function Key(): (int, int) {
      (group, index)
    }
  }

  /** A child with a group or a header gets a cluster of its own; any other is merged into the cluster it is in. */
  predicate Clustered(child: Child) {
    child.group != 0 || child.hasHeader
  }

  /** The clusters that argp_hol makes below a cluster, numbered from `at` on. */
  function Made(a: Argp, parent: Option<nat>, at: nat): seq<Node>
    decreases a, 1
  {
    MadeOf(a.children, parent, at)
  }

  function MadeOf(children: seq<Child>, parent: Option<nat>, at: nat): seq<Node>
    decreases children, 0
  {
    if children == [] then []
    else
      var init, last := children[..|children| - 1], children[|children| - 1];
      assert last.argp < last;
      var before := MadeOf(init, parent, at);
      before + MadeFor(last, |init|, parent, at + |before|)
  }

  function MadeFor(child: Child, index: nat, parent: Option<nat>, me: nat): seq<Node>
    decreases child, 0
  {
    assert child.argp < child;
    if Clustered(child) then [Node(child.group, index, parent)] + Made(child.argp, Some(me), me + 1)
    else Made(child.argp, parent, me)
  }

  /** A child with a header gets a cluster of its own, whatever its group, and so does a child with a group, whatever
      its header: it has the child's group and number, hangs below the parent's cluster, and all that is made for the
      child's argp is below it. Any other child leaves all that to the parent's cluster. */
  lemma ClusterOfChild(child: Child, index: nat, parent: Option<nat>, me: nat)
    ensures child.hasHeader || child.group != 0 ==>
              MadeFor(child, index, parent, me)
              == [Node(child.group, index, parent)] + Made(child.argp, Some(me), me + 1)
    ensures !child.hasHeader && child.group == 0 ==> MadeFor(child, index, parent, me) == Made(child.argp, parent, me)
  {
  }

  /** Clusters with the same parent have different keys. */
  ghost predicate NodesDiffer(nodes: seq<Node>) {
    forall j, k :: 0 <= j < k < |nodes| && nodes[j].parent == nodes[k].parent ==> nodes[j].Key() != nodes[k].Key()
  }

  /** The keys of the clusters directly below one cluster: those of its children, and of the children of children that
      were merged into it. */
  function Keys(a: Argp): seq<(int, int)>
    decreases a, 1
  {
    KeysOf(a.children)
  }

  function KeysOf(children: seq<Child>): seq<(int, int)>
    decreases children, 0
  {
    if children == [] then []
    else
      var init, last := children[..|children| - 1], children[|children| - 1];
      KeysOf(init) + KeysFor(last, |init|)
  }

  function KeysFor(child: Child, index: nat): seq<(int, int)>
    decreases child, 0
  {
    assert child.argp < child;
    if Clustered(child) then [(child.group, index)] else Keys(child.argp)
  }

  ghost predicate Unique(keys: seq<(int, int)>) {
    forall j, k :: 0 <= j < k < |keys| ==> keys[j] != keys[k]
  }

  /** No two clusters directly below the same cluster have the same group and index. */
  ghost predicate KeysDiffer(a: Argp)
    decreases a, 2
  {
    Unique(Keys(a)) && BelowDiffer(a.children)
  }

  ghost predicate BelowDiffer(children: seq<Child>)
    decreases children, 0
  {
    children != [] ==> BelowDiffer(children[..|children| - 1]) && BelowDiffersFor(children[|children| - 1])
  }

  ghost predicate BelowDiffersFor(child: Child)
    decreases child, 0
  {
    assert child.argp < child;
    if Clustered(child) then KeysDiffer(child.argp) else BelowDiffer(child.argp.children)
  }

  /** The parents of a run of clusters: the given one, or one that was made before in the run. */
  ghost predicate Hang(nodes: seq<Node>, parent: Option<nat>, at: nat) {
    forall k :: 0 <= k < |nodes| ==>
      nodes[k].parent == parent || (nodes[k].parent.Some? && at <= nodes[k].parent.value < at + k)
  }

  /** Some cluster of the run is directly below the parent and has this key. */
  ghost predicate HasKey(nodes: seq<Node>, parent: Option<nat>, key: (int, int)) {
    exists k :: 0 <= k < |nodes| && nodes[k].parent == parent && nodes[k].Key() == key
  }

  /** The run of clusters and the keys of the tree say the same. */
  ghost predicate Tells(nodes: seq<Node>, keys: seq<(int, int)>, below: bool, parent: Option<nat>, at: nat) {
    && Hang(nodes, parent, at)
    && (forall key :: HasKey(nodes, parent, key) <==> key in keys)
    && (NodesDiffer(nodes) <==> Unique(keys) && below)
  }

  lemma HasKeyJoined(x: seq<Node>, y: seq<Node>, parent: Option<nat>, key: (int, int))
    ensures HasKey(x + y, parent, key) <==> HasKey(x, parent, key) || HasKey(y, parent, key)
  {
    if k :| 0 <= k < |x| && x[k].parent == parent && x[k].Key() == key {
      assert (x + y)[k] == x[k];
    }
    if k :| 0 <= k < |y| && y[k].parent == parent && y[k].Key() == key {
      assert (x + y)[|x| + k] == y[k];
    }
  }

  /** Clusters that are merged into the same parent. */
  lemma TellsMerged(x: seq<Node>, y: seq<Node>, keys: seq<(int, int)>, more: seq<(int, int)>,
                    below: bool, below': bool, parent: Option<nat>, at: nat)
    requires Tells(x, keys, below, parent, at) && Tells(y, more, below', parent, at + |x|)
    requires parent.Some? ==> parent.value < at
    ensures Tells(x + y, keys + more, below && below', parent, at)
  {
    var nodes := x + y;
    forall key
      ensures HasKey(nodes, parent, key) <==> key in keys + more
    {
      HasKeyJoined(x, y, parent, key);
    }
    UniqueJoined(keys, more);
    DifferJoined(x, y);
    ClashIfCommon(x, y, keys, more, parent, at);
  }

  ghost predicate Clash(x: seq<Node>, y: seq<Node>) {
    exists j, k :: 0 <= j < |x| && 0 <= k < |y| && x[j].parent == y[k].parent && x[j].Key() == y[k].Key()
  }

  ghost predicate Common(a: seq<(int, int)>, b: seq<(int, int)>) {
    exists key :: key in a && key in b
  }

  /** Two runs clash only below the parent they have in common. */
  lemma ClashIfCommon(x: seq<Node>, y: seq<Node>, keys: seq<(int, int)>, more: seq<(int, int)>,
                      parent: Option<nat>, at: nat)
    requires Hang(x, parent, at) && Hang(y, parent, at + |x|) && (parent.Some? ==> parent.value < at)
    requires forall key :: HasKey(x, parent, key) <==> key in keys
    requires forall key :: HasKey(y, parent, key) <==> key in more
    ensures Clash(x, y) <==> Common(keys, more)
  {
    if j, k :| 0 <= j < |x| && 0 <= k < |y| && x[j].parent == y[k].parent && x[j].Key() == y[k].Key() {
      assert x[j].parent == parent;
      assert HasKey(x, parent, x[j].Key()) && HasKey(y, parent, x[j].Key());
    }
    if key :| key in keys && key in more {
      var j :| 0 <= j < |x| && x[j].parent == parent && x[j].Key() == key;
      var k :| 0 <= k < |y| && y[k].parent == parent && y[k].Key() == key;
      assert x[j].parent == y[k].parent && x[j].Key() == y[k].Key();
    }
  }

  lemma UniqueJoined(a: seq<(int, int)>, b: seq<(int, int)>)
    ensures Unique(a + b) <==> Unique(a) && Unique(b) && !Common(a, b)
  {
    assert forall j :: 0 <= j < |a| ==> (a + b)[j] == a[j];
    assert forall k :: 0 <= k < |b| ==> (a + b)[|a| + k] == b[k];
    if key :| key in a && key in b {
      var j :| 0 <= j < |a| && a[j] == key;
      var k :| 0 <= k < |b| && b[k] == key;
      assert (a + b)[j] == (a + b)[|a| + k];
    }
    if Unique(a) && Unique(b) && !Common(a, b) {
      forall j, k | 0 <= j < k < |a + b|
        ensures (a + b)[j] != (a + b)[k]
      {
        if j < |a| <= k {
          assert a[j] in a && b[k - |a|] in b;
        }
      }
    }
  }

  lemma DifferJoined(x: seq<Node>, y: seq<Node>)
    ensures NodesDiffer(x + y) <==> NodesDiffer(x) && NodesDiffer(y) && !Clash(x, y)
  {
    assert forall j :: 0 <= j < |x| ==> (x + y)[j] == x[j];
    assert forall k :: 0 <= k < |y| ==> (x + y)[|x| + k] == y[k];
    if j, k :| 0 <= j < |x| && 0 <= k < |y| && x[j].parent == y[k].parent && x[j].Key() == y[k].Key() {
      assert (x + y)[j].parent == (x + y)[|x| + k].parent && (x + y)[j].Key() == (x + y)[|x| + k].Key();
    }
  }

  /** A cluster of its own, and those below it. */
  lemma TellsOwn(node: Node, z: seq<Node>, keys: seq<(int, int)>, below: bool, parent: Option<nat>, me: nat)
    requires Tells(z, keys, below, Some(me), me + 1) && node.parent == parent
    requires parent.Some? ==> parent.value < me
    ensures Tells([node] + z, [node.Key()], Unique(keys) && below, parent, me)
  {
    var nodes := [node] + z;
    forall k | 0 <= k < |nodes|
      ensures nodes[k].parent == parent || (nodes[k].parent.Some? && me <= nodes[k].parent.value < me + k)
      ensures k > 0 ==> nodes[k].parent != parent
    {
      if k > 0 {
        assert nodes[k] == z[k - 1];
      }
    }
    forall key
      ensures HasKey(nodes, parent, key) <==> key in [node.Key()]
    {
      if key == node.Key() {
        assert nodes[0] == node;
      }
    }
    DifferJoined([node], z);
  }

  lemma {:induction false} MadeTells(a: Argp, parent: Option<nat>, at: nat)
    requires parent.Some? ==> parent.value < at
    ensures Tells(Made(a, parent, at), Keys(a), BelowDiffer(a.children), parent, at)
    decreases a, 1
  {
    MadeOfTells(a.children, parent, at);
  }

  lemma {:induction false} MadeOfTells(children: seq<Child>, parent: Option<nat>, at: nat)
    requires parent.Some? ==> parent.value < at
    ensures Tells(MadeOf(children, parent, at), KeysOf(children), BelowDiffer(children), parent, at)
    decreases children, 0
  {
    if children != [] {
      var init, last := children[..|children| - 1], children[|children| - 1];
      var before := MadeOf(init, parent, at);
      var me := at + |before|;
      MadeOfTells(init, parent, at);
      MadeForTells(last, |init|, parent, me);
      TellsMerged(before, MadeFor(last, |init|, parent, me), KeysOf(init), KeysFor(last, |init|),
                  BelowDiffer(init), BelowDiffersFor(last), parent, at);
    }
  }

  lemma {:induction false} MadeForTells(child: Child, index: nat, parent: Option<nat>, me: nat)
    requires parent.Some? ==> parent.value < me
    ensures Tells(MadeFor(child, index, parent, me), KeysFor(child, index), BelowDiffersFor(child), parent, me)
    decreases child, 0
  {
    assert child.argp < child;
    if Clustered(child) {
      MadeTells(child.argp, Some(me), me + 1);
      TellsOwn(Node(child.group, index, parent), Made(child.argp, Some(me), me + 1),
               Keys(child.argp), BelowDiffer(child.argp.children), parent, me);
    } else {
      MadeTells(child.argp, parent, me);
    }
  }

  /** When every child has a group or a header, the keys below every cluster differ. */
  ghost predicate AllClustered(children: seq<Child>)
    decreases children
  {
    forall i :: 0 <= i < |children| ==>
      assert children[i].argp < children[i]; Clustered(children[i]) && AllClustered(children[i].argp.children)
  }

  lemma {:induction false} AllClusteredDiffer(children: seq<Child>)
    requires AllClustered(children)
    ensures Unique(KeysOf(children)) && BelowDiffer(children)
    ensures |KeysOf(children)| == |children| && forall i :: 0 <= i < |children| ==> KeysOf(children)[i].1 == i
    decreases children
  {
    if children != [] {
      var init, last := children[..|children| - 1], children[|children| - 1];
      assert last.argp < last;
      AllClusteredDiffer(init);
      AllClusteredDiffer(last.argp.children);
    }
  }

  /** A merged child whose own child gets the same group and index as a child of its parent: the two clusters have the
      same parent and key. */
  lemma MergedChildrenMayClash()
    ensures var leaf := Argp(None, false, None, []);
            var merged := Argp(None, false, None, [Child(leaf, 1, false)]);
            !KeysDiffer(Argp(None, false, None, [Child(leaf, 1, false), Child(merged, 0, false)]))
  {
    var leaf := Argp(None, false, None, []);
    var one := [Child(leaf, 1, false)];
    var merged := Argp(None, false, None, one);
    var two := one + [Child(merged, 0, false)];
    assert one[..0] == [] && KeysOf(one[..0]) == [];
    assert KeysOf(one) == [(1, 0)];
    assert two[..1] == one && KeysOf(two) == KeysOf(one) + Keys(merged);
    assert KeysOf(two)[0] == KeysOf(two)[1];
    assert two == [Child(leaf, 1, false), Child(merged, 0, false)];
    assert Keys(Argp(None, false, None, two)) == KeysOf(two);
  }

  /** The cluster with this number in the run, or the one the run hangs below. */
  function ClusterOf(clusters: seq<HolCluster>, p: Option<nat>, top: HolCluster?, parent: Option<nat>, at: nat)
    : HolCluster?
  {
    if p == parent then top
    else if p.Some? && at <= p.value < at + |clusters| then clusters[p.value - at]
    else null
  }

  /** A cluster has the key and the parent that the run says. */
  ghost predicate Placed(clusters: seq<HolCluster>, c: HolCluster, node: Node, top: HolCluster?,
                         parent: Option<nat>, at: nat)
  {
    c.Valid() && c.Key() == node.Key() && c.parent == ClusterOf(clusters, node.parent, top, parent, at)
  }

  ghost predicate AllDifferent(clusters: seq<HolCluster>) {
    forall j, k :: 0 <= j < k < |clusters| ==> clusters[j] != clusters[k]
  }

  /** The clusters are those of the run, made in this order below the given one. */
  ghost predicate Embodies(clusters: seq<HolCluster>, nodes: seq<Node>, top: HolCluster?,
                           parent: Option<nat>, at: nat)
  {
    && |clusters| == |nodes| && Hang(nodes, parent, at)
    && (forall k :: 0 <= k < |nodes| ==> Placed(clusters, clusters[k], nodes[k], top, parent, at))
    && AllDifferent(clusters) && top !in clusters
  }

  lemma PlacedBefore(xs: seq<HolCluster>, ys: seq<HolCluster>, c: HolCluster, node: Node, top: HolCluster?,
                     parent: Option<nat>, at: nat)
    requires Placed(xs, c, node, top, parent, at)
    requires node.parent == parent || (node.parent.Some? && at <= node.parent.value < at + |xs|)
    ensures Placed(xs + ys, c, node, top, parent, at)
  {
  }

  lemma PlacedBehind(xs: seq<HolCluster>, ys: seq<HolCluster>, c: HolCluster, node: Node, top: HolCluster?,
                     parent: Option<nat>, at: nat)
    requires Placed(ys, c, node, top, parent, at + |xs|)
    requires node.parent == parent || (node.parent.Some? && at + |xs| <= node.parent.value < at + |xs| + |ys|)
    ensures Placed(xs + ys, c, node, top, parent, at)
  {
  }

  lemma DifferentJoined(xs: seq<HolCluster>, ys: seq<HolCluster>)
    requires AllDifferent(xs) && AllDifferent(ys) && forall c :: c in ys ==> c !in xs
    ensures AllDifferent(xs + ys)
  {
    forall j, k | 0 <= j < k < |xs + ys|
      ensures (xs + ys)[j] != (xs + ys)[k]
    {
      if j < |xs| <= k {
        assert (xs + ys)[k] in ys;
      }
    }
  }

  lemma HangJoined(x: seq<Node>, y: seq<Node>, parent: Option<nat>, at: nat)
    requires Hang(x, parent, at) && Hang(y, parent, at + |x|)
    ensures Hang(x + y, parent, at)
  {
    forall k | |x| <= k < |x + y|
      ensures (x + y)[k] == y[k - |x|]
    {
    }
  }

  lemma EmbodiesMerged(xs: seq<HolCluster>, ys: seq<HolCluster>, x: seq<Node>, y: seq<Node>,
                       top: HolCluster?, parent: Option<nat>, at: nat)
    requires Embodies(xs, x, top, parent, at) && Embodies(ys, y, top, parent, at + |x|)
    requires forall c :: c in ys ==> c !in xs
    ensures Embodies(xs + ys, x + y, top, parent, at)
  {
    var clusters, nodes := xs + ys, x + y;
    HangJoined(x, y, parent, at);
    DifferentJoined(xs, ys);
    forall k | 0 <= k < |nodes|
      ensures Placed(clusters, clusters[k], nodes[k], top, parent, at)
    {
      if k < |x| {
        PlacedBefore(xs, ys, xs[k], x[k], top, parent, at);
      } else {
        PlacedBehind(xs, ys, ys[k - |x|], y[k - |x|], top, parent, at);
      }
    }
  }

  lemma EmbodiesOwn(cl: HolCluster, zs: seq<HolCluster>, node: Node, z: seq<Node>,
                    top: HolCluster?, parent: Option<nat>, me: nat)
    requires Embodies(zs, z, cl, Some(me), me + 1) && (parent.Some? ==> parent.value < me)
    requires cl.Valid() && cl.parent == top && cl.Key() == node.Key() && node.parent == parent
    requires cl != top && top !in zs
    ensures Embodies([cl] + zs, [node] + z, top, parent, me)
  {
    var clusters, nodes := [cl] + zs, [node] + z;
    HangUnder(node, z, parent, me);
    DifferentJoined([cl], zs);
    forall k | 0 <= k < |nodes|
      ensures Placed(clusters, clusters[k], nodes[k], top, parent, me)
    {
      if k > 0 {
        PlacedUnder(cl, zs, zs[k - 1], z[k - 1], top, parent, me);
      }
    }
  }

  lemma PlacedUnder(cl: HolCluster, zs: seq<HolCluster>, c: HolCluster, node: Node, top: HolCluster?,
                    parent: Option<nat>, me: nat)
    requires Placed(zs, c, node, cl, Some(me), me + 1) && (parent.Some? ==> parent.value < me)
    requires node.parent == Some(me) || (node.parent.Some? && me + 1 <= node.parent.value < me + 1 + |zs|)
    ensures Placed([cl] + zs, c, node, top, parent, me)
  {
  }

  lemma HangUnder(node: Node, z: seq<Node>, parent: Option<nat>, me: nat)
    requires Hang(z, Some(me), me + 1) && node.parent == parent
    ensures Hang([node] + z, parent, me)
  {
    forall k | 0 < k < |[node] + z|
      ensures ([node] + z)[k] == z[k - 1]
    {
    }
  }

  /** argp_hol, as far as clusters are concerned: what is made below a cluster, in order. */
  method AddClusters(a: Argp, cluster: HolCluster?, ghost parent: Option<nat>, ghost at: nat)
    returns (made: seq<HolCluster>)
    requires (cluster != null ==> cluster.Valid()) && (parent.Some? ==> parent.value < at)
    ensures Embodies(made, Made(a, parent, at), cluster, parent, at)
    ensures forall c :: c in made ==> fresh(c)
    decreases a, 1
  {
    made := [];
    var i := 0;
    while i < |a.children|
      invariant 0 <= i <= |a.children|
      invariant Embodies(made, MadeOf(a.children[..i], parent, at), cluster, parent, at)
      invariant forall c :: c in made ==> fresh(c)
    {
      made := AddNext(a.children, i, made, cluster, parent, at);
      i := i + 1;
    }
    assert a.children[..i] == a.children;
  }

  /** One round of the loop. */
  method AddNext(children: seq<Child>, i: nat, made: seq<HolCluster>, cluster: HolCluster?,
                 ghost parent: Option<nat>, ghost at: nat)
    returns (longer: seq<HolCluster>)
    requires i < |children| && (cluster != null ==> cluster.Valid()) && (parent.Some? ==> parent.value < at)
    requires Embodies(made, MadeOf(children[..i], parent, at), cluster, parent, at)
    ensures Embodies(longer, MadeOf(children[..i + 1], parent, at), cluster, parent, at)
    ensures forall c :: c in longer ==> c in made || fresh(c)
    decreases children[i], 1
  {
    MadeOneMore(children, i, parent, at);
    ghost var before, me := MadeOf(children[..i], parent, at), at + |made|;
    var more := AddChild(children[i], i, cluster, parent, me);
    EmbodiesMerged(made, more, before, MadeFor(children[i], i, parent, me), cluster, parent, at);
    longer := made + more;
  }

  lemma {:induction false} MadeOneMore(children: seq<Child>, i: nat, parent: Option<nat>, at: nat)
    requires i < |children|
    ensures var before := MadeOf(children[..i], parent, at);
            MadeOf(children[..i + 1], parent, at) == before + MadeFor(children[i], i, parent, at + |before|)
  {
    assert children[..i + 1][..i] == children[..i];
  }

  /** One child: within its own cluster, or merged into the parent's cluster. */
  method AddChild(child: Child, index: nat, cluster: HolCluster?, ghost parent: Option<nat>, ghost me: nat)
    returns (made: seq<HolCluster>)
    requires (cluster != null ==> cluster.Valid()) && (parent.Some? ==> parent.value < me)
    ensures Embodies(made, MadeFor(child, index, parent, me), cluster, parent, me)
    ensures forall c :: c in made ==> fresh(c)
    decreases child, 0
  {
    assert child.argp < child;
    if Clustered(child) {
      var cl := new HolCluster(child.group, index, cluster);
      var below := AddClusters(child.argp, cl, Some(me), me + 1);
      EmbodiesOwn(cl, below, Node(child.group, index, parent), Made(child.argp, Some(me), me + 1), cluster, parent, me);
      made := [cl] + below;
    } else {
      made := AddClusters(child.argp, cluster, parent, me);
    }
  }

  /** The clusters of a tree meet the hypothesis of the order exactly if no two clusters directly below the same one
      have the same group and index. */
  method ClustersOf(a: Argp) returns (made: seq<HolCluster>)
    ensures SiblingsDiffer(set c | c in made) <==> KeysDiffer(a)
  {
    made := AddClusters(a, null, None, 0);
    MadeTells(a, None, 0);
    SiblingsDifferIfNodesDo(made, Made(a, None, 0));
  }

  lemma SameParent(clusters: seq<HolCluster>, nodes: seq<Node>, j: nat, k: nat)
    requires Embodies(clusters, nodes, null, None, 0) && j < |nodes| && k < |nodes|
    ensures clusters[j].parent == clusters[k].parent <==> nodes[j].parent == nodes[k].parent
    ensures clusters[j].parent != null ==> clusters[j].parent in clusters
  {
    assert Placed(clusters, clusters[j], nodes[j], null, None, 0);
    assert Placed(clusters, clusters[k], nodes[k], null, None, 0);
    var p, q := nodes[j].parent, nodes[k].parent;
    if p.Some? && q.Some? && p != q {
      assert clusters[if p.value < q.value then p.value else q.value]
             != clusters[if p.value < q.value then q.value else p.value];
    }
  }

  lemma SiblingsDifferIfNodesDo(clusters: seq<HolCluster>, nodes: seq<Node>)
    requires Embodies(clusters, nodes, null, None, 0)
    ensures SiblingsDiffer(set c | c in clusters) <==> NodesDiffer(nodes)
  {
    var s := set c | c in clusters;
    forall j, k | 0 <= j < |nodes| && 0 <= k < |nodes|
      ensures clusters[j].parent == clusters[k].parent <==> nodes[j].parent == nodes[k].parent
      ensures clusters[j].parent != null ==> clusters[j].parent in s
    {
      SameParent(clusters, nodes, j, k);
    }
    assert forall k :: 0 <= k < |clusters| ==> clusters[k] in s;
  }
}
