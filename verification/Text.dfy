/** The string functions of the C library and of wvstrutils.cc that the configuration and D-Bus code rest on. */
module Text {
  predicate IsSpace(c: char) {
    c == ' ' || '\t' <= c <= '\r'
  }

  /** The number of characters before the first one that satisfies the predicate: strcspn, strchr, strlen. */
  function Span(s: string, stop: char -> bool): (r: nat)
    ensures r <= |s|
  {
    if s == [] || stop(s[0]) then 0 else 1 + Span(s[1..], stop)
  }

  lemma {:induction false} SpanIs(s: string, n: nat, stop: char -> bool)
    requires n <= |s| && (forall k :: 0 <= k < n ==> !stop(s[k])) && (n < |s| ==> stop(s[n]))
    ensures Span(s, stop) == n
  {
    if n > 0 {
      SpanIs(s[1..], n - 1, stop);
    }
  }

  lemma {:induction false} SpanStops(s: string, stop: char -> bool)
    ensures var n := Span(s, stop);
            (forall k :: 0 <= k < n ==> !stop(s[k])) && (n < |s| ==> stop(s[n]))
  {
    if s != [] && !stop(s[0]) {
      SpanStops(s[1..], stop);
      forall k | 0 < k < Span(s, stop)
        ensures !stop(s[k])
      {
        assert s[k] == s[1..][k - 1];
      }
    }
  }

  function TrimEnd(s: string): string {
    if s != [] && IsSpace(s[|s| - 1]) then TrimEnd(s[..|s| - 1]) else s
  }

  /** trim_string. */
  function Trim(s: string): string {
    var t := TrimEnd(s);
    t[Span(t, c => !IsSpace(c))..]
  }

  /** No white space at either end. */
  predicate IsTrimmed(s: string) {
    s != [] ==> !IsSpace(s[0]) && !IsSpace(s[|s| - 1])
  }

  lemma TrimmedStays(s: string)
    requires IsTrimmed(s)
    ensures Trim(s) == s
  {
    SpanIs(s, 0, c => !IsSpace(c));
  }

  lemma TrimmedBefore(s: string, c: char)
    requires IsTrimmed(s) && IsSpace(c)
    ensures Trim(s + [c]) == s
  {
    assert (s + [c])[..|s|] == s;
    assert TrimEnd(s + [c]) == TrimEnd(s);
    TrimmedStays(s);
  }

  predicate IsBlank(s: string) {
    forall k :: 0 <= k < |s| ==> IsSpace(s[k])
  }

  /** Trimming takes away exactly the white space before and after a text without any at its ends. */
  lemma TrimIs(before: string, s: string, after: string)
    requires IsBlank(before) && IsBlank(after) && IsTrimmed(s)
    ensures Trim(before + s + after) == s
  {
    TrimEndIs(before + s, after);
    if s == "" {
      TrimEndIs("", before);
      assert before + s == before && "" + before == before;
    } else {
      var t := before + s;
      assert t[|t| - 1] == s[|s| - 1] && t[|before|] == s[0] && t[|before|..] == s;
      SpanIs(t, |before|, c => !IsSpace(c));
    }
  }

  lemma {:induction false} TrimEndIs(s: string, after: string)
    requires IsBlank(after)
    ensures TrimEnd(s + after) == TrimEnd(s)
  {
    if after == "" {
      assert s + after == s;
    } else {
      var n := |after| - 1;
      assert (s + after)[..|s| + n] == s + after[..n];
      TrimEndIs(s, after[..n]);
    }
  }

  function Upper(s: string): (r: string)
    ensures |r| == |s|
  {
    seq(|s|, k requires 0 <= k < |s| => if 'a' <= s[k] <= 'z' then (s[k] as int - 32) as char else s[k])
  }

  /** strcasecmp finds no difference. */
  predicate SameName(s: string, t: string) {
    Upper(s) == Upper(t)
  }

  /** The same letter, in upper or lower case, or the same character. */
  predicate SameLetter(c: char, d: char) {
    || c == d
    || ('a' <= c <= 'z' && c as int - 32 == d as int)
    || ('a' <= d <= 'z' && d as int - 32 == c as int)
  }

  /** Names are the same exactly if they are so letter by letter. */
  lemma SameNameIs(s: string, t: string)
    ensures SameName(s, t) <==> |s| == |t| && forall k :: 0 <= k < |s| ==> SameLetter(s[k], t[k])
  {
    if SameName(s, t) {
      forall k | 0 <= k < |s|
        ensures SameLetter(s[k], t[k])
      {
        assert Upper(s)[k] == Upper(t)[k];
      }
    }
  }

  /** The line as a C string, up to its first zero, without the white space around it. */
  function Cleaned(raw: string): string {
    Trim(raw[..Span(raw, c => c == '\0')])
  }
}
