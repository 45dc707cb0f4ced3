/** The in-place block rotation of argp-parse.c (`exchange`). */
module ArgpExchange {

  /** s with the adjacent segments [bottom, middle) and [middle, top) exchanged. */
  function Rotated<T>(s: seq<T>, bottom: nat, middle: nat, top: nat): seq<T>
    requires bottom <= middle <= top <= |s|
  {
    s[..bottom] + s[middle..top] + s[bottom..middle] + s[top..]
  }

  lemma RotatedIsPermutation<T>(s: seq<T>, bottom: nat, middle: nat, top: nat)
    requires bottom <= middle <= top <= |s|
    ensures multiset(Rotated(s, bottom, middle, top)) == multiset(s)
  {
    assert s == s[..bottom] + s[bottom..middle] + s[middle..top] + s[top..];
  }

  /** Where the element at x comes from in a rotation. */
  function Origin(bottom: nat, middle: nat, top: nat, x: nat): nat
    requires bottom <= middle <= top
  {
    if bottom <= x < bottom + (top - middle) then x + (middle - bottom)
    else if bottom + (top - middle) <= x < top then x - (top - middle)
    else x
  }

  /** The rotation of s gives t, position by position. */
  ghost predicate Rotates<T>(s: seq<T>, t: seq<T>, bottom: nat, middle: nat, top: nat) {
    && bottom <= middle <= top <= |s| == |t|
    && forall x :: 0 <= x < |s| ==> t[x] == s[Origin(bottom, middle, top, x)]
  }

  lemma RotatesIffRotated<T>(s: seq<T>, t: seq<T>, bottom: nat, middle: nat, top: nat)
    requires bottom <= middle <= top <= |s|
    ensures Rotates(s, t, bottom, middle, top) <==> t == Rotated(s, bottom, middle, top)
  {
    var r := Rotated(s, bottom, middle, top);
    assert Rotates(s, r, bottom, middle, top);
  }

  /** Where the element at x comes from when the segments of length len at i and j are swapped. */
  function Partner(i: nat, j: nat, len: nat, x: nat): nat
    requires i + len <= j
  {
    if i <= x < i + len then x + (j - i)
    else if j <= x < j + len then x - (j - i)
    else x
  }

  ghost predicate Swaps<T>(s: seq<T>, t: seq<T>, i: nat, j: nat, len: nat) {
    && i + len <= j && j + len <= |s| == |t|
    && forall x :: 0 <= x < |s| ==> t[x] == s[Partner(i, j, len, x)]
  }

  /** Exchanging a short bottom segment with the end of the top one leaves a smaller rotation to do. */
  lemma ShortBottom<T>(s: seq<T>, s': seq<T>, goal: seq<T>, bottom: nat, middle: nat, top: nat, len: nat)
    requires Rotates(s, goal, bottom, middle, top) && middle - bottom == len <= top - middle
    requires Swaps(s, s', bottom, top - (middle - bottom), len)
    ensures Rotates(s', goal, bottom, middle, top - len)
  {
  }

  /** Exchanging a short top segment with the start of the bottom one leaves a smaller rotation to do. */
  lemma ShortTop<T>(s: seq<T>, s': seq<T>, goal: seq<T>, bottom: nat, middle: nat, top: nat, len: nat)
    requires Rotates(s, goal, bottom, middle, top) && top - middle == len <= middle - bottom
    requires Swaps(s, s', bottom, middle, len)
    ensures Rotates(s', goal, bottom + len, middle, top)
  {
  }

  /** Both inner loops of `exchange`: swaps two disjoint segments element by element. */
  method SwapSegments<T>(a: array<T>, i: nat, j: nat, len: nat)
    requires i + len <= j && j + len <= a.Length
    modifies a
    ensures Swaps(old(a[..]), a[..], i, j, len)
  {
    var k := 0;
    while k < len
      invariant 0 <= k <= len
      invariant forall x :: 0 <= x < a.Length ==> a[x] == old(a[..])[Partner(i, j, k, x)]
    {
      var tem := a[i + k];
      a[i + k] := a[j + k];
      a[j + k] := tem;
      k := k + 1;
    }
  }

  /** One turn of the loop of `exchange`: moves the shorter segment into its final place. */
  method RotateStep<T>(a: array<T>, bottom: nat, middle: nat, top: nat, ghost goal: seq<T>)
    returns (bottom': nat, top': nat)
    requires bottom < middle < top <= a.Length && Rotates(a[..], goal, bottom, middle, top)
    modifies a
    ensures bottom <= bottom' <= middle <= top' <= top && top' - bottom' < top - bottom
    ensures Rotates(a[..], goal, bottom', middle, top')
  {
    bottom', top' := bottom, top;
    if top - middle > middle - bottom {
      top' := top - (middle - bottom);
      MoveBottom(a, bottom, middle, top, middle - bottom, goal);
    } else {
      bottom' := bottom + (top - middle);
      MoveTop(a, bottom, middle, top, top - middle, goal);
    }
  }

  method MoveBottom<T>(a: array<T>, bottom: nat, middle: nat, top: nat, len: nat, ghost goal: seq<T>)
    requires middle - bottom == len <= top - middle && top <= a.Length && Rotates(a[..], goal, bottom, middle, top)
    modifies a
    ensures Rotates(a[..], goal, bottom, middle, top - len)
  {
    ghost var was := a[..];
    SwapSegments(a, bottom, top - len, len);
    ShortBottom(was, a[..], goal, bottom, middle, top, len);
  }

  method MoveTop<T>(a: array<T>, bottom: nat, middle: nat, top: nat, len: nat, ghost goal: seq<T>)
    requires top - middle == len <= middle - bottom && top <= a.Length && Rotates(a[..], goal, bottom, middle, top)
    modifies a
    ensures Rotates(a[..], goal, bottom + len, middle, top)
  {
    ghost var was := a[..];
    SwapSegments(a, bottom, middle, len);
    ShortTop(was, a[..], goal, bottom, middle, top, len);
  }

  /** The loop of `exchange`: an exact rotation of two adjacent segments. */
  method Rotate<T>(a: array<T>, first: nat, middle: nat, next: nat)
    requires first <= middle <= next <= a.Length
    modifies a
    ensures a[..] == Rotated(old(a[..]), first, middle, next)
  {
    var bottom, top := first, next;
    ghost var goal := Rotated(a[..], first, middle, next);
    RotatesIffRotated(a[..], goal, first, middle, next);
    while top > middle && middle > bottom
      invariant 0 <= bottom <= middle <= top <= a.Length
      invariant Rotates(a[..], goal, bottom, middle, top)
      decreases top - bottom
    {
      bottom, top := RotateStep(a, bottom, middle, top, goal);
    }
    assert a[..] == goal;
  }
}
