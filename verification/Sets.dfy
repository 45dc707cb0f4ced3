/** Facts about finite sets that several proofs need. */
module Sets {
  lemma OneLess<T>(s: set<T>, x: T)
    requires x in s
    ensures |s - {x}| == |s| - 1
  {
    var t := s - {x};
    assert |t + {x}| == |t| + 1;
    assert t + {x} == s;
  }
}
