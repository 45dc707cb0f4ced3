/** Facts about slices of sequences that several proofs need. */
module Slices {
  lemma SliceOfSlice<T>(s: seq<T>, lo: nat, hi: nat, i: nat, j: nat, x: nat, y: nat)
    requires lo <= hi <= |s| && i <= j <= hi - lo && x == lo + i && y == lo + j
    ensures s[lo..hi][i..j] == s[x..y]
  {
    forall k | 0 <= k < j - i
      ensures s[lo..hi][i..j][k] == s[x..y][k]
    {
      assert s[lo..hi][i + k] == s[lo + i + k];
    }
  }

  lemma TailOfTail<T>(s: seq<T>, i: nat)
    requires i < |s|
    ensures s[i..][0] == s[i] && s[i..][1..] == s[i + 1..] && s[i..i + 1] == [s[i]]
  {
  }

  lemma FrontAndRest<T>(s: seq<T>, i: nat)
    requires i <= |s|
    ensures s[0..i] == s[..i] && s[i..|s|] == s[i..]
  {
  }

  lemma LongerFront<T>(s: seq<T>, i: nat, piece: seq<T>, j: nat)
    requires i <= j <= |s| && piece == s[i..][..j - i]
    ensures s[..j] == s[..i] + piece
  {
  }

  lemma OneLonger<T>(s: seq<T>, i: nat)
    requires i < |s|
    ensures s[..i + 1] == s[..i] + [s[i]]
  {
  }

  lemma NothingAdded<T>(s: seq<T>, t: seq<T>)
    requires |t| == 0
    ensures s + t == s
  {
  }

  lemma Joined<T>(a: seq<T>, b: seq<T>, c: seq<T>)
    ensures a + b + c == a + (b + c)
  {
  }
}
