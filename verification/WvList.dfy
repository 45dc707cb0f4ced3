/**
 WvList (wvlinklist.h, wvlinklist.cc): a singly linked list in the heap with a sentinel in front, a pointer to its
 last link, and iterators that may take out the link they stand on.
 */
module WvLists {
  import opened Optional
  import opened Slices

  /** What a link holds: the element, and whether the list owns it. */
  datatype Entry<T> = Entry(data: Option<T>, autofree: bool)

  class WvLink<T> {
    const data: Option<T>
    const autofree: bool
    var next: WvLink?<T>

    constructor (data: Option<T>, autofree: bool)
      ensures this.data == data && this.autofree == autofree && next == null
    {
      this.data, this.autofree, next := data, autofree, null;
    }

    function Holds(): Entry<T> {
      Entry(data, autofree)
    }
  }

  /** What is released when an entry is destroyed: its element, if the list owns it. */
  function Freed<T>(e: Entry<T>): seq<T> {
    if e.autofree && e.data.Some? then [e.data.value] else []
  }

  function Everything<T>(): Option<T> -> bool {
    d => true
  }

  function Is<T(==)>(data: Option<T>): Option<T> -> bool {
    d => d == data
  }

  /** What is released when the matching ones of the first n entries are destroyed, in order. */
  function Released<T>(s: seq<Entry<T>>, n: nat, matches: Option<T> -> bool): seq<T>
    requires n <= |s|
  {
    if n == 0 then [] else Released(s, n - 1, matches) + if matches(s[n - 1].data) then Freed(s[n - 1]) else []
  }

  /** Those of the first n entries that do not match, in order. */
  function Kept<T>(s: seq<Entry<T>>, n: nat, matches: Option<T> -> bool): (r: seq<Entry<T>>)
    requires n <= |s|
    ensures |r| <= n
  {
    if n == 0 then [] else Kept(s, n - 1, matches) + if matches(s[n - 1].data) then [] else [s[n - 1]]
  }

  function AllKept<T>(s: seq<Entry<T>>, matches: Option<T> -> bool): seq<Entry<T>> {
    Kept(s, |s|, matches)
  }

  function AllReleased<T>(s: seq<Entry<T>>, matches: Option<T> -> bool): seq<T> {
    Released(s, |s|, matches)
  }

  lemma {:induction false} KeptPrefix<T>(s: seq<Entry<T>>, t: seq<Entry<T>>, n: nat, matches: Option<T> -> bool)
    requires n <= |s|
    ensures Kept(s + t, n, matches) == Kept(s, n, matches) && Released(s + t, n, matches) == Released(s, n, matches)
  {
    if n > 0 {
      KeptPrefix(s, t, n - 1, matches);
    }
  }

  lemma {:induction false} OneMoreKept<T>(s: seq<Entry<T>>, n: nat, e: Entry<T>, matches: Option<T> -> bool)
    requires n < |s| && s[n] == e
    ensures Kept(s, n + 1, matches) == Kept(s, n, matches) + if matches(e.data) then [] else [e]
  {
  }

  lemma {:induction false} KeptSuffix<T>(s: seq<Entry<T>>, t: seq<Entry<T>>, n: nat, matches: Option<T> -> bool)
    requires n <= |t|
    ensures Kept(s + t, |s| + n, matches) == AllKept(s, matches) + Kept(t, n, matches)
  {
    if n == 0 {
      KeptPrefix(s, t, |s|, matches);
    } else {
      var e := t[n - 1];
      OneMoreKept(s + t, |s| + n - 1, e, matches);
      OneMoreKept(t, n - 1, e, matches);
      KeptSuffix(s, t, n - 1, matches);
      Joined(AllKept(s, matches), Kept(t, n - 1, matches), if matches(e.data) then [] else [e]);
    }
  }

  lemma {:induction false} ReleasedSuffix<T>(s: seq<Entry<T>>, t: seq<Entry<T>>, n: nat, matches: Option<T> -> bool)
    requires n <= |t|
    ensures Released(s + t, |s| + n, matches) == AllReleased(s, matches) + Released(t, n, matches)
  {
    if n == 0 {
      KeptPrefix(s, t, |s|, matches);
    } else {
      var e := t[n - 1];
      assert (s + t)[|s| + n - 1] == e;
      ReleasedSuffix(s, t, n - 1, matches);
      Joined(AllReleased(s, matches), Released(t, n - 1, matches), if matches(e.data) then Freed(e) else []);
    }
  }

  /** What is kept are the elements that do not match, and what is released are the owned ones that do, each in order:
      this holds for one element, and for two lists one behind the other. */
  lemma KeptIsFilter<T>(s: seq<Entry<T>>, t: seq<Entry<T>>, e: Entry<T>, matches: Option<T> -> bool)
    ensures AllKept(s + t, matches) == AllKept(s, matches) + AllKept(t, matches)
    ensures AllReleased(s + t, matches) == AllReleased(s, matches) + AllReleased(t, matches)
    ensures AllKept([e], matches) == if matches(e.data) then [] else [e]
    ensures AllReleased([e], matches)
            == if matches(e.data) && e.autofree && e.data.Some? then [e.data.value] else []
  {
    KeptSuffix(s, t, |t|, matches);
    ReleasedSuffix(s, t, |t|, matches);
    assert Kept([e], 0, matches) == [] && Released([e], 0, matches) == [];
  }

  lemma {:induction false} NothingMatches<T>(s: seq<Entry<T>>, n: nat, matches: Option<T> -> bool)
    requires n <= |s| && forall k :: 0 <= k < n ==> !matches(s[k].data)
    ensures Kept(s, n, matches) == s[..n] && Released(s, n, matches) == []
  {
    if n > 0 {
      NothingMatches(s, n - 1, matches);
    }
  }

  function Without<X>(s: seq<X>, k: nat): (r: seq<X>)
    requires k < |s|
    ensures |r| == |s| - 1
    ensures forall i :: 0 <= i < k ==> r[i] == s[i]
    ensures forall i :: k <= i < |s| - 1 ==> r[i] == s[i + 1]
  {
    s[..k] + s[k + 1..]
  }

  ghost predicate Inside<T>(s: seq<WvLink<T>>, t: seq<WvLink<T>>) {
    forall k :: 0 <= k < |s| ==> s[k] in t
  }

  lemma WithoutInside<T>(s: seq<WvLink<T>>, k: nat, t: seq<WvLink<T>>)
    requires k < |s| && Inside(s, t)
    ensures Inside(Without(s, k), t)
  {
  }

  /** Dropping one matching entry changes nothing about what is kept. */
  lemma {:induction false} KeptWithout<T>(s: seq<Entry<T>>, k: nat, n: nat, matches: Option<T> -> bool)
    requires k < |s| && n < |s| && matches(s[k].data)
    ensures Kept(Without(s, k), n, matches) == Kept(s, if n <= k then n else n + 1, matches)
    ensures n == k ==> Kept(s, n + 1, matches) == Kept(s, n, matches)
  {
    if n > 0 {
      KeptWithout(s, k, n - 1, matches);
    }
  }

  lemma AllKeptWithout<T>(s: seq<Entry<T>>, k: nat, matches: Option<T> -> bool)
    requires k < |s| && matches(s[k].data)
    ensures AllKept(Without(s, k), matches) == AllKept(s, matches)
  {
    KeptWithout(s, k, |s| - 1, matches);
  }

  lemma {:induction false} ReleasedOneMore<T>(s: seq<Entry<T>>, n: nat, matches: Option<T> -> bool)
    requires n < |s|
    ensures Released(s, n + 1, matches) == Released(s, n, matches) + if matches(s[n].data) then Freed(s[n]) else []
  {
  }

  /** Dropping the first matching entry releases it before all the others. */
  lemma {:induction false} ReleasedWithout<T>(s: seq<Entry<T>>, k: nat, n: nat, matches: Option<T> -> bool)
    requires k <= n < |s| && matches(s[k].data) && forall i :: 0 <= i < k ==> !matches(s[i].data)
    ensures Released(s, n + 1, matches) == Freed(s[k]) + Released(Without(s, k), n, matches)
  {
    var rest := Without(s, k);
    if n == k {
      NothingMatches(s, k, matches);
      NothingMatches(rest, k, matches);
    } else {
      ReleasedWithout(s, k, n - 1, matches);
      assert s[n] == rest[n - 1];
      ReleasedOneMore(s, n, matches);
      ReleasedOneMore(rest, n - 1, matches);
      Joined(Freed(s[k]), Released(rest, n - 1, matches), if matches(s[n].data) then Freed(s[n]) else []);
    }
  }

  /** A list from which some matching entries were taken out, in order: in the end, the same is kept and released. */
  ghost predicate Dropping<T>(now: seq<Entry<T>>, released: seq<T>, was: seq<Entry<T>>, before: seq<T>,
                              matches: Option<T> -> bool)
  {
    && AllKept(now, matches) == AllKept(was, matches)
    && released + AllReleased(now, matches) == before + AllReleased(was, matches)
  }

  lemma DroppedOne<T>(
    now: seq<Entry<T>>, released: seq<T>, k: nat, was: seq<Entry<T>>, before: seq<T>, matches: Option<T> -> bool)
    requires Dropping(now, released, was, before, matches)
    requires k < |now| && matches(now[k].data) && forall i :: 0 <= i < k ==> !matches(now[i].data)
    ensures Dropping(Without(now, k), released + Freed(now[k]), was, before, matches)
  {
    AllKeptWithout(now, k, matches);
    ReleasedWithout(now, k, |now| - 1, matches);
    var rest := AllReleased(Without(now, k), matches);
    assert released + Freed(now[k]) + rest == released + (Freed(now[k]) + rest);
  }

  /** A list of which the first n entries are gone. */
  ghost predicate Zapped<T>(now: seq<Entry<T>>, released: seq<T>, was: seq<Entry<T>>, before: seq<T>,
                            n: nat, destroy: bool)
  {
    && n <= |was| && now == was[n..]
    && released == before + if destroy then Released(was, n, Everything()) else []
  }

  lemma ZappedOneMore<T>(now: seq<Entry<T>>, released: seq<T>, was: seq<Entry<T>>, before: seq<T>,
                         n: nat, destroy: bool)
    requires Zapped(now, released, was, before, n, destroy) && now != []
    ensures Zapped(Without(now, 0), released + (if destroy then Freed(now[0]) else []), was, before, n + 1, destroy)
  {
    assert now[0] == was[n];
  }

  /** A list in which the loop has dealt with the first n entries: it has kept k of them, and released the rest. */
  ghost predicate Swept<T>(now: seq<Entry<T>>, released: seq<T>, k: nat,
                           was: seq<Entry<T>>, before: seq<T>, n: nat, matches: Option<T> -> bool)
  {
    && n <= |was| && k == |Kept(was, n, matches)|
    && now == Kept(was, n, matches) + was[n..]
    && released == before + Released(was, n, matches)
  }

  lemma SweptOneMore<T>(now: seq<Entry<T>>, released: seq<T>, k: nat,
                        was: seq<Entry<T>>, before: seq<T>, n: nat, matches: Option<T> -> bool)
    requires Swept(now, released, k, was, before, n, matches) && n < |was|
    ensures k < |now| && now[k] == was[n]
    ensures if matches(now[k].data)
            then Swept(Without(now, k), released + Freed(now[k]), k, was, before, n + 1, matches)
            else Swept(now, released, k + 1, was, before, n + 1, matches)
  {
    var kept := Kept(was, n, matches);
    if matches(was[n].data) {
      assert Without(now, k) == kept + was[n + 1..];
    } else {
      assert now == (kept + [was[n]]) + was[n + 1..];
    }
  }

  lemma SweptAtStart<T>(was: seq<Entry<T>>, before: seq<T>, matches: Option<T> -> bool)
    ensures Swept(was, before, 0, was, before, 0, matches)
  {
  }

  lemma SweptAtEnd<T>(now: seq<Entry<T>>, released: seq<T>, k: nat,
                      was: seq<Entry<T>>, before: seq<T>, n: nat, matches: Option<T> -> bool)
    requires Swept(now, released, k, was, before, n, matches) && k == |now|
    ensures now == AllKept(was, matches) && released == before + AllReleased(was, matches)
  {
    assert |was[n..]| == 0;
  }

  function Reversed<X>(s: seq<X>): (r: seq<X>)
    ensures |r| == |s|
  {
    seq(|s|, k requires 0 <= k < |s| => s[|s| - 1 - k])
  }

  /** Reversing two lists, one behind the other, reverses each and exchanges them. */
  lemma ReversedJoined<X>(s: seq<X>, t: seq<X>, x: X)
    ensures Reversed(s + t) == Reversed(t) + Reversed(s) && Reversed([x]) == [x]
  {
  }

  function After<T>(spine: seq<WvLink<T>>, k: nat): WvLink?<T>
    requires k < |spine|
  {
    if k + 1 < |spine| then spine[k + 1] else null
  }

  /** The links hang together, from the first to one without a successor, and none occurs twice. */
  ghost predicate Chained<T>(spine: seq<WvLink<T>>)
    reads spine
  {
    && (forall k :: 0 <= k < |spine| ==> spine[k].next == After(spine, k))
    && Distinct(spine)
  }

  ghost predicate Distinct<T>(s: seq<WvLink<T>>) {
    forall i, j :: 0 <= i < j < |s| ==> s[i] != s[j]
  }

  function Entries<T>(spine: seq<WvLink<T>>): (r: seq<Entry<T>>)
    ensures |r| == |spine|
  {
    seq(|spine|, k requires 0 <= k < |spine| => spine[k].Holds())
  }

  /** A spine with a link put in after a place. */
  function Inserted<X>(spine: seq<X>, link: X, pos: nat): seq<X>
    requires pos < |spine|
  {
    spine[..pos + 1] + [link] + spine[pos + 1..]
  }

  lemma AfterInserted<T>(spine: seq<WvLink<T>>, link: WvLink<T>, pos: nat, k: nat)
    requires pos < |spine| && k <= |spine|
    ensures var now := Inserted(spine, link, pos);
            if k == pos then now[k] == spine[pos] && After(now, k) == link
            else if k == pos + 1 then now[k] == link && After(now, k) == After(spine, pos)
            else var j := if k < pos then k else k - 1; now[k] == spine[j] && After(now, k) == After(spine, j)
  {
  }

  lemma AfterWithout<T>(spine: seq<WvLink<T>>, pos: nat, k: nat)
    requires pos + 1 < |spine| && k < |spine| - 1
    ensures var now := Without(spine, pos + 1);
            if k == pos then now[k] == spine[pos] && After(now, k) == After(spine, pos + 1)
            else var j := if k < pos then k else k + 1; now[k] == spine[j] && After(now, k) == After(spine, j)
  {
  }

  /** The links of a spine hang together but for one place. */
  ghost predicate ChainedBut<T>(spine: seq<WvLink<T>>, pos: nat)
    reads spine
  {
    (forall k :: 0 <= k < |spine| && k != pos ==> spine[k].next == After(spine, k)) && Distinct(spine)
  }

  lemma ChainedInserted<T>(spine: seq<WvLink<T>>, link: WvLink<T>, pos: nat)
    requires pos < |spine| && link !in spine && ChainedBut(spine, pos)
    requires spine[pos].next == link && link.next == After(spine, pos)
    ensures Chained(Inserted(spine, link, pos))
  {
    var now := Inserted(spine, link, pos);
    forall k | 0 <= k < |now|
      ensures now[k].next == After(now, k)
    {
      AfterInserted(spine, link, pos, k);
    }
  }

  lemma ChainedWithout<T>(spine: seq<WvLink<T>>, pos: nat)
    requires pos + 1 < |spine| && ChainedBut(spine, pos) && spine[pos].next == After(spine, pos + 1)
    ensures Chained(Without(spine, pos + 1))
  {
    var now := Without(spine, pos + 1);
    forall k | 0 <= k < |now|
      ensures now[k].next == After(now, k)
    {
      AfterWithout(spine, pos, k);
    }
  }

  lemma EntriesInserted<T>(spine: seq<WvLink<T>>, link: WvLink<T>, pos: nat)
    requires pos < |spine|
    ensures var was := Entries(spine[1..]);
            Entries(Inserted(spine, link, pos)[1..]) == was[..pos] + [link.Holds()] + was[pos..]
  {
  }

  lemma EntriesRemoved<T>(spine: seq<WvLink<T>>, pos: nat)
    requires pos + 1 < |spine|
    ensures var was := Entries(spine[1..]);
            Entries(Without(spine, pos + 1)[1..]) == Without(was, pos)
  {
  }

  class WvList<T(==)> {
    const head: WvLink<T>
    var tail: WvLink<T>

    /** The sentinel and the links that can be reached from it; the elements the list has released. */
    ghost var spine: seq<WvLink<T>>
    ghost var released: seq<T>

    ghost predicate Valid()
      reads this, spine
    {
      && spine != [] && spine[0] == head && tail == spine[|spine| - 1]
      && Chained(spine)
    }

    ghost function Contents(): seq<Entry<T>>
      reads this
      requires spine != []
    {
      Entries(spine[1..])
    }

    constructor ()
      ensures Valid() && Contents() == [] && released == [] && fresh(head)
    {
      var link := new WvLink(None, false);
      head, tail, spine, released := link, link, [link], [];
    }

    /** add_after, and the constructor of WvLink. */
    method AddAfter(after: WvLink<T>, data: Option<T>, autofree: bool, ghost pos: nat) returns (link: WvLink<T>)
      requires Valid() && pos < |spine| && spine[pos] == after
      modifies this`tail, this`spine, after`next
      ensures Valid() && released == old(released)
      ensures Contents() == old(Contents())[..pos] + [Entry(data, autofree)] + old(Contents())[pos..]
      ensures fresh(link) && spine == Inserted(old(spine), link, pos)
    {
      link := new WvLink(data, autofree);
      HookIn(after, link, pos);
    }

    /** What the constructor of WvLink does to the list. */
    method HookIn(after: WvLink<T>, link: WvLink<T>, ghost pos: nat)
      requires Valid() && pos < |spine| && spine[pos] == after && link !in spine
      modifies this`tail, this`spine, after`next, link`next
      ensures Valid() && spine == Inserted(old(spine), link, pos)
      ensures Contents() == old(Contents())[..pos] + [link.Holds()] + old(Contents())[pos..]
    {
      Tie(after, link, pos);
      EntriesInserted(spine, link, pos);
      spine := Inserted(spine, link, pos);
    }

    /** The links of it. */
    method Tie(after: WvLink<T>, link: WvLink<T>, ghost pos: nat)
      requires Valid() && pos < |spine| && spine[pos] == after && link !in spine
      modifies this`tail, after`next, link`next
      ensures Chained(Inserted(spine, link, pos))
      ensures tail == if pos + 1 == |spine| then link else old(tail)
    {
      link.next := after.next;
      if link.next == null {
        tail := link;
      }
      after.next := link;
      ChainedInserted(spine, link, pos);
    }

    /** append. */
    method Append(data: Option<T>, autofree: bool)
      requires Valid()
      modifies this`tail, this`spine, tail`next
      ensures Valid() && released == old(released)
      ensures Contents() == old(Contents()) + [Entry(data, autofree)]
    {
      var _ := AddAfter(tail, data, autofree, |spine| - 1);
    }

    /** prepend. */
    method Prepend(data: Option<T>, autofree: bool)
      requires Valid()
      modifies this`tail, this`spine, head`next
      ensures Valid() && released == old(released)
      ensures Contents() == [Entry(data, autofree)] + old(Contents())
    {
      var _ := AddAfter(head, data, autofree, 0);
    }

    /** unlink_after: nothing happens after the last link. */
    method UnlinkAfter(after: WvLink<T>, destroy: bool, ghost pos: nat)
      requires Valid() && pos < |spine| && spine[pos] == after
      modifies this`tail, this`spine, this`released, after`next
      ensures Valid()
      ensures pos == |old(spine)| - 1 ==> spine == old(spine) && released == old(released)
      ensures pos < |old(spine)| - 1 ==>
        && spine == Without(old(spine), pos + 1)
        && Contents() == Without(old(Contents()), pos)
        && released == old(released) + if destroy then Freed(old(Contents())[pos]) else []
    {
      var next := after.next;
      if next != null {
        assert Contents()[pos] == next.Holds();
        Bypass(after, next, pos);
        if destroy && next.autofree && next.data.Some? {
          released := released + [next.data.value];
        }
      }
    }

    /** The unlinking itself. */
    method Bypass(after: WvLink<T>, next: WvLink<T>, ghost pos: nat)
      requires Valid() && pos + 1 < |spine| && spine[pos] == after && spine[pos + 1] == next
      modifies this`tail, this`spine, after`next
      ensures Valid() && spine == Without(old(spine), pos + 1) && Contents() == Without(old(Contents()), pos)
    {
      if next == tail {
        tail := after;
      }
      after.next := next.next;
      ghost var was := spine;
      spine := Without(spine, pos + 1);
      EntriesRemoved(was, pos);
      ChainedWithout(was, pos);
    }

    /** zap: takes out the first link until there is none. */
    method Zap(destroy: bool)
      requires Valid()
      modifies this`tail, this`spine, this`released, head`next
      ensures Valid() && Contents() == []
      ensures released == old(released) + if destroy then AllReleased(old(Contents()), Everything()) else []
    {
      ghost var was := Contents();
      ghost var before := released;
      ghost var n: nat := 0;
      while head.next != null
        invariant Valid() && Zapped(Contents(), released, was, before, n, destroy)
        decreases |spine|
      {
        ZapOne(destroy, was, before, n);
        n := n + 1;
      }
    }

    /** One round of zap. */
    method ZapOne(destroy: bool, ghost was: seq<Entry<T>>, ghost before: seq<T>, ghost n: nat)
      requires Valid() && head.next != null && Zapped(Contents(), released, was, before, n, destroy)
      modifies this`tail, this`spine, this`released, head`next
      ensures Valid() && |spine| == old(|spine|) - 1
      ensures Zapped(Contents(), released, was, before, n + 1, destroy)
    {
      ZappedOneMore(Contents(), released, was, before, n, destroy);
      UnlinkAfter(head, destroy, 0);
    }

    /** count. */
    method Count() returns (n: nat)
      requires Valid()
      ensures n == |Contents()|
    {
      n := 0;
      var l := head.next;
      while l != null
        invariant n < |spine| && l == After(spine, n)
        decreases |spine| - n
      {
        l := l.next;
        n := n + 1;
      }
    }
  }

  class Iter<T(==)> {
    const list: WvList<T>
    var link: WvLink?<T>
    var prev: WvLink?<T>

    /** The iterator stands on this place of the list, and knows the one before it. */
    ghost predicate At(k: nat)
      reads this, list, list.spine
    {
      && list.Valid() && k <= |list.spine|
      && link == (if k < |list.spine| then list.spine[k] else null)
      && prev == (if k == 0 then null else list.spine[k - 1])
    }

    /** It stands on this place, but has forgotten what is before it, as after xunlink. */
    ghost predicate On(k: nat)
      reads this, list, list.spine
    {
      list.Valid() && k < |list.spine| && link == list.spine[k]
    }

    constructor (list: WvList<T>)
      ensures this.list == list && link == null
    {
      this.list, link, prev := list, null, null;
    }

    method Rewind()
      requires list.Valid()
      modifies this
      ensures At(0) && On(0)
    {
      prev, link := null, list.head;
    }

    /** next: to be called only on a place of the list. */
    method Next(ghost k: nat) returns (cur: WvLink?<T>)
      requires On(k)
      modifies this
      ensures At(k + 1) && cur == link
    {
      prev := link;
      link := link.next;
      cur := link;
    }

    /** The iterator stands on place k + 1 of a list whose first n entries a deleting loop has dealt with. */
    ghost predicate Sweeping(cur: WvLink?<T>, k: nat, matches: Option<T> -> bool,
                             was: seq<Entry<T>>, before: seq<T>, n: nat, all: seq<WvLink<T>>)
      reads this, list, list.spine
    {
      && At(k + 1) && cur == link && Inside(list.spine, all)
      && Swept(list.Contents(), list.released, k, was, before, n, matches)
    }

    method StartSweep(ghost matches: Option<T> -> bool) returns (cur: WvLink?<T>)
      requires list.Valid()
      modifies this
      ensures Sweeping(cur, 0, matches, list.Contents(), list.released, 0, list.spine)
    {
      Rewind();
      cur := Next(0);
      SweptAtStart(list.Contents(), list.released, matches);
    }

    /** The iterator has come to this place without meeting the given element. */
    ghost predicate Searching(cur: WvLink?<T>, k: nat, data: Option<T>)
      reads this, list, list.spine
    {
      && 0 < k && At(k) && cur == link
      && forall i :: 0 <= i < k - 1 ==> list.Contents()[i].data != data
    }

    /** The iterator stands on the first place whose element is the given one, or at the end if there is none. */
    ghost predicate Found(cur: WvLink?<T>, k: nat, data: Option<T>)
      reads this, list, list.spine
    {
      Searching(cur, k, data) && (cur != null ==> list.Contents()[k - 1].data == data)
    }

    /** find: the first place whose element is the given one. */
    method Find(data: Option<T>) returns (cur: WvLink?<T>, ghost k: nat)
      requires list.Valid()
      modifies this
      ensures Found(cur, k, data)
    {
      Rewind();
      cur := Next(0);
      k := 1;
      while cur != null && cur.data != data
        invariant Searching(cur, k, data)
        decreases |list.spine| - k
      {
        cur := SearchOn(cur, k, data);
        k := k + 1;
      }
      assert cur != null ==> list.Contents()[k - 1] == cur.Holds();
    }

    method SearchOn(cur: WvLink<T>, ghost k: nat, ghost data: Option<T>) returns (next: WvLink?<T>)
      requires Searching(cur, k, data) && cur.data != data
      modifies this
      ensures Searching(next, k + 1, data) && k < |list.spine|
    {
      assert list.Contents()[k - 1] == cur.Holds();
      next := Next(k);
    }

    /** The link at a place of the list is taken out, if the place is not behind the end. */
    ghost predicate TookOut(k: nat, destroy: bool, spine: seq<WvLink<T>>, contents: seq<Entry<T>>, released: seq<T>)
      reads this, list, list.spine
      requires list.Valid() && 0 < k <= |spine| == |contents| + 1
    {
      if k == |spine| then list.spine == spine && list.Contents() == contents && list.released == released
      else
        && list.spine == Without(spine, k) && list.Contents() == Without(contents, k - 1)
        && list.released == released + if destroy then Freed(contents[k - 1]) else []
    }

    /** unlink: the iterator moves on to the next place; false stands for following the null `prev` of an iterator that
        was just rewound. */
    method Unlink(destroy: bool, ghost k: nat) returns (ok: bool)
      requires At(k)
      modifies this, list`tail, list`spine, list`released, prev
      ensures ok == (k > 0) && At(k)
      ensures if ok then TookOut(k, destroy, old(list.spine), old(list.Contents()), old(list.released))
              else list.spine == old(list.spine) && list.released == old(list.released)
    {
      if prev != null {
        list.UnlinkAfter(prev, destroy, k - 1);
      }
      if prev == null {
        return false;
      }
      link := prev.next;
      return true;
    }

    /** xunlink: the iterator moves back to the place before; one that was just rewound is left on no link. */
    method Xunlink(destroy: bool, ghost k: nat)
      requires At(k)
      modifies this, list`tail, list`spine, list`released, prev
      ensures k > 0 ==> On(k - 1) && TookOut(k, destroy, old(list.spine), old(list.Contents()), old(list.released))
      ensures k == 0 ==> link == null && list.Valid()
                         && list.spine == old(list.spine) && list.released == old(list.released)
    {
      if prev != null {
        list.UnlinkAfter(prev, destroy, k - 1);
      }
      link := prev;
    }
  }

  /** The loop of del_callback: rewind, next, xunlink what matches. */
  method DeleteMatching<T(==)>(list: WvList<T>, matches: Option<T> -> bool)
    requires list.Valid()
    modifies list, list.spine
    ensures list.Valid() && list.Contents() == AllKept(old(list.Contents()), matches)
    ensures list.released == old(list.released) + AllReleased(old(list.Contents()), matches)
    ensures Inside(list.spine, old(list.spine))
  {
    ghost var was, before, all := list.Contents(), list.released, list.spine;
    ghost var n, k: nat := 0, 0;
    var i := new Iter(list);
    var cur := i.StartSweep(matches);
    while cur != null
      invariant fresh(i) && i.list == list && i.Sweeping(cur, k, matches, was, before, n, all)
      decreases |was| - n
    {
      SweepInside(i, cur, k, matches, was, before, n, all);
      cur, k := SweepOne(i, k, matches, was, before, n, all);
      n := n + 1;
    }
    SweepEnds(i, k, matches, was, before, n, all);
  }

  lemma SweepInside<T>(i: Iter<T>, cur: WvLink<T>, k: nat, matches: Option<T> -> bool,
                       was: seq<Entry<T>>, before: seq<T>, n: nat, all: seq<WvLink<T>>)
    requires i.Sweeping(cur, k, matches, was, before, n, all)
    ensures i.prev in all && n < |was|
  {
  }

  lemma SweepEnds<T>(i: Iter<T>, k: nat, matches: Option<T> -> bool,
                     was: seq<Entry<T>>, before: seq<T>, n: nat, all: seq<WvLink<T>>)
    requires i.Sweeping(null, k, matches, was, before, n, all)
    ensures i.list.Valid() && Inside(i.list.spine, all)
    ensures i.list.Contents() == AllKept(was, matches) && i.list.released == before + AllReleased(was, matches)
  {
    SweptAtEnd(i.list.Contents(), i.list.released, k, was, before, n, matches);
  }

  /** One round of the loop; n counts the rounds. */
  method SweepOne<T(==)>(i: Iter<T>, ghost k: nat, matches: Option<T> -> bool,
                         ghost was: seq<Entry<T>>, ghost before: seq<T>, ghost n: nat, ghost all: seq<WvLink<T>>)
    returns (cur: WvLink?<T>, ghost kept: nat)
    requires i.link != null && i.Sweeping(i.link, k, matches, was, before, n, all)
    modifies i, i.list, i.prev
    ensures i.Sweeping(cur, kept, matches, was, before, n + 1, all)
  {
    var list := i.list;
    assert list.Contents()[k] == i.link.Holds();
    SweptOneMore(list.Contents(), list.released, k, was, before, n, matches);
    kept := k;
    if matches(i.link.data) {
      WithoutInside(list.spine, k + 1, all);
      i.Xunlink(true, k + 1);
    } else {
      kept := k + 1;
    }
    cur := i.Next(kept);
  }

  /** unlink: finds the element, from the start, until there is none. */
  method UnlinkElement<T(==)>(list: WvList<T>, data: Option<T>)
    requires list.Valid()
    modifies list, list.spine
    ensures list.Valid() && list.Contents() == AllKept(old(list.Contents()), Is(data))
    ensures list.released == old(list.released) + AllReleased(old(list.Contents()), Is(data))
    ensures Inside(list.spine, old(list.spine))
  {
    ghost var was, before := list.Contents(), list.released;
    ghost var all := list.spine;
    var i := new Iter(list);
    var cur, k := i.Find(data);
    while cur != null
      invariant fresh(i) && i.list == list && i.Found(cur, k, data) && Inside(list.spine, all)
      invariant Dropping(list.Contents(), list.released, was, before, Is(data))
      decreases |list.spine|
    {
      cur, k := UnlinkOne(i, data, k, was, before, all);
    }
    NothingMatches(list.Contents(), |list.Contents()|, Is(data));
  }

  /** One round of the loop. */
  method UnlinkOne<T(==)>(i: Iter<T>, data: Option<T>, ghost k: nat,
                          ghost was: seq<Entry<T>>, ghost before: seq<T>, ghost all: seq<WvLink<T>>)
    returns (cur: WvLink?<T>, ghost found: nat)
    requires i.link != null && i.Found(i.link, k, data) && Inside(i.list.spine, all)
    requires Dropping(i.list.Contents(), i.list.released, was, before, Is(data))
    modifies i, i.list, i.prev
    ensures i.Found(cur, found, data) && Inside(i.list.spine, all) && |i.list.spine| < old(|i.list.spine|)
    ensures Dropping(i.list.Contents(), i.list.released, was, before, Is(data))
  {
    DroppedOne(i.list.Contents(), i.list.released, k - 1, was, before, Is(data));
    WithoutInside(i.list.spine, k, all);
    var _ := i.Unlink(true, k);
    cur, found := i.Find(data);
  }

  /** reverse. */
  method Reverse<T(==)>(list: WvList<T>)
    requires list.Valid()
    modifies list`tail, list`spine, list.spine
    ensures list.Valid() && list.Contents() == Reversed(old(list.Contents()))
    ensures list.released == old(list.released)
  {
    if list.head.next == null || list.head.next.next == null {
      return;
    }
    var prev := TurnLinks(list);
    TurnEnds(list, prev);
  }

  /** The end of reverse: the first link becomes the last one, and the sentinel points to the last one. */
  method TurnEnds<T(==)>(list: WvList<T>, prev: WvLink<T>)
    requires 1 < |list.spine| && list.spine[0] == list.head && Distinct(list.spine)
    requires prev == list.spine[|list.spine| - 1] && list.spine[0].next == list.spine[1]
    requires forall i :: 2 <= i < |list.spine| ==> list.spine[i].next == list.spine[i - 1]
    modifies list`tail, list`spine, list.spine
    ensures list.Valid() && list.Contents() == Reversed(old(list.Contents()))
  {
    ghost var was := list.spine;
    list.tail := list.head.next;
    list.tail.next := null;
    list.head.next := prev;
    list.spine := Turned(was);
    EntriesTurned(was);
    ChainedTurned(was);
  }

  /** The loop of reverse: points every link but the first back to the one before. */
  method TurnLinks<T(==)>(list: WvList<T>) returns (prev: WvLink<T>)
    requires list.Valid() && 2 < |list.spine|
    modifies list.spine
    ensures prev == list.tail
    ensures list.spine[0].next == list.spine[1]
    ensures forall i :: 2 <= i < |list.spine| ==> list.spine[i].next == list.spine[i - 1]
  {
    prev := list.head.next;
    var curr := prev.next;
    ghost var was := list.spine;
    ghost var k: nat := 2;
    while curr != null
      invariant Turning(was, k) && prev == was[k - 1] && curr == (if k < |was| then was[k] else null)
      decreases |was| - k
    {
      var next := curr.next;
      TurnOne(curr, prev, was, k);
      prev := curr;
      curr := next;
      k := k + 1;
    }
  }

  /** The links of a spine from place 2 to k point back, those from k on still point forward. */
  ghost predicate Turning<T>(spine: seq<WvLink<T>>, k: nat)
    reads spine
  {
    && 2 <= k <= |spine| && Distinct(spine) && spine[0].next == spine[1]
    && (forall i :: k <= i < |spine| ==> spine[i].next == After(spine, i))
    && forall i :: 2 <= i < k ==> spine[i].next == spine[i - 1]
  }

  method TurnOne<T(==)>(curr: WvLink<T>, prev: WvLink<T>, ghost spine: seq<WvLink<T>>, ghost k: nat)
    requires k < |spine| && Turning(spine, k) && curr == spine[k] && prev == spine[k - 1]
    modifies curr`next
    ensures Turning(spine, k + 1)
  {
    curr.next := prev;
  }

  /** A spine whose links after the sentinel are in reverse order. */
  function Turned<X>(spine: seq<X>): (r: seq<X>)
    requires spine != []
    ensures |r| == |spine|
  {
    [spine[0]] + Reversed(spine[1..])
  }

  lemma AfterTurned<T>(spine: seq<WvLink<T>>, k: nat)
    requires 1 < |spine| && k < |spine|
    ensures Turned(spine)[k] == spine[if k == 0 then 0 else |spine| - k]
    ensures After(Turned(spine), k)
            == if k == 0 then spine[|spine| - 1] else if k == |spine| - 1 then null else spine[|spine| - k - 1]
  {
  }

  lemma EntriesTurned<T>(spine: seq<WvLink<T>>)
    requires spine != []
    ensures Entries(Turned(spine)[1..]) == Reversed(Entries(spine[1..]))
  {
  }

  lemma ChainedTurned<T>(spine: seq<WvLink<T>>)
    requires 1 < |spine| && Distinct(spine)
    requires spine[0].next == spine[|spine| - 1] && spine[1].next == null
    requires forall i :: 2 <= i < |spine| ==> spine[i].next == spine[i - 1]
    ensures Chained(Turned(spine))
  {
    var now := Turned(spine);
    forall k | 0 <= k < |now|
      ensures now[k].next == After(now, k)
    {
      AfterTurned(spine, k);
    }
    forall i, j | 0 <= i < j < |now|
      ensures now[i] != now[j]
    {
      assert now[j] == spine[|spine| - j];
    }
  }
}
