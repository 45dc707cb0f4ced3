/**
 The usage patterns of argp-help.c: every argp may document its operands by several alternative lines, and a counter
 spread over the tree, one char for each argp with alternatives, steps through all combinations of them.
 */
module ArgpUsage {
  import opened Optional
  import opened ArgpModel
  import opened Slices

  // ----- the alternatives of one argp -----

  /** __strchrnul(s + from, '\n'): the next newline, or the end. */
  function Newline(s: string, from: nat): (r: nat)
    requires from <= |s|
    ensures from <= r <= |s| && '\n' !in s[from..r] && (r < |s| ==> s[r] == '\n')
    decreases |s| - from
  {
    if from == |s| || s[from] == '\n' then from
    else
      var r := Newline(s, from + 1);
      assert s[from..r] == [s[from]] + s[from + 1..r];
      r
  }

  /** The lines of a text, from the line that starts at `from` on. */
  function Lines(s: string, from: nat): (r: seq<string>)
    requires from <= |s|
    ensures |r| >= 1 && (|r| == 1 <==> '\n' !in s[from..])
    decreases |s| - from
  {
    var nl := Newline(s, from);
    if nl == |s| then [s[from..]]
    else
      assert s[from..][nl - from] == '\n';
      [s[from..nl]] + Lines(s, nl + 1)
  }

  /** Lines with line feeds between them. */
  function Unlines(lines: seq<string>): string
    requires lines != []
  {
    if |lines| == 1 then lines[0] else lines[0] + "\n" + Unlines(lines[1..])
  }

  /** These lines, none of which has a line feed, make this text. */
  ghost predicate Separate(text: string, lines: seq<string>) {
    lines != [] && Unlines(lines) == text && forall i :: 0 <= i < |lines| ==> '\n' !in lines[i]
  }

  /** The lines of a text are what the line feeds in it separate. */
  lemma {:induction false} LinesAreSeparated(s: string, from: nat)
    requires from <= |s|
    ensures Separate(s[from..], Lines(s, from))
    decreases |s| - from
  {
    var nl := Newline(s, from);
    FirstLineOf(s, from, nl);
    if nl == |s| {
      OneLine(s[from..]);
    } else {
      LinesAreSeparated(s, nl + 1);
      OneMoreLine(s, from, nl, Lines(s, nl + 1));
    }
  }

  lemma {:induction false} FirstLineOf(s: string, from: nat, nl: nat)
    requires from <= |s| && nl == Newline(s, from)
    ensures if nl == |s| then Lines(s, from) == [s[from..]] && '\n' !in s[from..]
            else Lines(s, from) == [s[from..nl]] + Lines(s, nl + 1)
  {
    if nl == |s| {
      assert s[from..nl] == s[from..];
    }
  }

  lemma {:induction false} OneLine(line: string)
    ensures '\n' !in line ==> Separate(line, [line])
  {
  }

  lemma {:induction false} OneMoreLine(s: string, from: nat, nl: nat, more: seq<string>)
    requires from <= nl < |s| && s[nl] == '\n' && '\n' !in s[from..nl] && Separate(s[nl + 1..], more)
    ensures Separate(s[from..], [s[from..nl]] + more)
  {
    UnlinesMore(s[from..nl], more);
    AroundNewline(s, from, nl);
  }

  lemma {:induction false} UnlinesMore(line: string, more: seq<string>)
    requires more != []
    ensures Unlines([line] + more) == line + "\n" + Unlines(more)
  {
    assert ([line] + more)[1..] == more;
  }

  lemma AroundNewline(s: string, from: nat, nl: nat)
    requires from <= nl < |s| && s[nl] == '\n'
    ensures s[from..] == s[from..nl] + "\n" + s[nl + 1..]
  {
  }

  predicate HasAlternatives(a: Argp) {
    a.argsDoc.Some? && '\n' in a.argsDoc.value
  }

  function Alternatives(a: Argp): nat {
    if a.argsDoc.Some? then |Lines(a.argsDoc.value, 0)| else 1
  }

  method FindNewline(s: string, from: nat) returns (r: nat)
    requires from <= |s|
    ensures r == Newline(s, from)
  {
    r := from;
    while r < |s| && s[r] != '\n'
      invariant from <= r <= |s| && Newline(s, from) == Newline(s, r)
    {
      r := r + 1;
    }
  }

  /** The scan of argp_args_usage for the line its level stands for; `more` tells whether another line follows. */
  method FindLine(doc: string, level: int) returns (line: string, more: bool)
    requires level < |Lines(doc, 0)|
    ensures line == Lines(doc, 0)[LineOf(level)] && more == (LineOf(level) + 1 < |Lines(doc, 0)|)
  {
    ghost var all := Lines(doc, 0);
    assert all[0..] == all;
    var cp, nl := SkipLines(doc, level, all);
    LineFound(doc, cp, nl, all, LineOf(level));
    return doc[cp..nl], nl < |doc|;
  }

  /** The loop over the lines before. */
  method SkipLines(doc: string, level: int, ghost all: seq<string>) returns (cp: nat, nl: nat)
    requires level < |all| && AtLine(doc, 0, all, 0)
    ensures AtLine(doc, cp, all, LineOf(level)) && nl == Newline(doc, cp)
  {
    cp := 0;
    nl := FindNewline(doc, cp);
    var i := 0;
    while i < level
      invariant 0 <= i <= LineOf(level) && AtLine(doc, cp, all, i) && nl == Newline(doc, cp)
    {
      cp, nl := NextLine(doc, cp, nl, all, i);
      i := i + 1;
    }
  }

  method NextLine(doc: string, cp: nat, nl: nat, ghost all: seq<string>, ghost i: nat) returns (cp': nat, nl': nat)
    requires AtLine(doc, cp, all, i) && nl == Newline(doc, cp) && i + 1 < |all|
    ensures AtLine(doc, cp', all, i + 1) && nl' == Newline(doc, cp')
  {
    LineFound(doc, cp, nl, all, i);
    cp' := nl + 1;
    nl' := FindNewline(doc, cp');
  }

  /** Line i of a text starts at cp. */
  ghost predicate AtLine(doc: string, cp: int, all: seq<string>, i: int) {
    0 <= cp <= |doc| && 0 <= i < |all| && all[i..] == Lines(doc, cp)
  }

  lemma LinesStep(doc: string, cp: nat)
    requires cp <= |doc|
    ensures var nl := Newline(doc, cp);
            && Lines(doc, cp)[0] == doc[cp..nl]
            && (nl < |doc| <==> |Lines(doc, cp)| > 1)
            && (nl < |doc| ==> Lines(doc, cp)[1..] == Lines(doc, nl + 1))
  {
  }

  /** The next newline ends the line, and what follows are the other lines. */
  lemma {:induction false} LineFound(doc: string, cp: int, nl: nat, all: seq<string>, i: int)
    requires AtLine(doc, cp, all, i) && nl == Newline(doc, cp)
    ensures all[i] == doc[cp..nl]
    ensures nl < |doc| <==> i + 1 < |all|
    ensures nl < |doc| ==> AtLine(doc, nl + 1, all, i + 1)
  {
    LinesStep(doc, cp);
    TailOfTail(all, i);
  }

  // ----- one level, kept in a char -----

  predicate IsChar(level: int) {
    -128 <= level <= 127
  }

  /** Incrementing a signed char. */
  function CharNext(level: int): int {
    if level == 127 then -128 else level + 1
  }

  /** The line a level stands for: a negative level never gets past the first one. */
  function LineOf(level: int): nat {
    if level < 0 then 0 else level
  }

  /** A level that stands for a line of its argp; it is negative only if there are more lines than a char can count. */
  predicate Stands(a: Argp, level: int) {
    IsChar(level) && LineOf(level) < Alternatives(a) && (Alternatives(a) <= 128 ==> 0 <= level)
  }

  /** Up to 128 alternatives fit into a char. */
  predicate Fits(a: Argp)
    decreases a, 1
  {
    Alternatives(a) <= 128 && FitsOf(a.children)
  }

  predicate FitsOf(children: seq<Child>)
    decreases children, 0
  {
    children != [] ==>
      assert children[|children| - 1].argp < children[|children| - 1];
      FitsOf(children[..|children| - 1]) && Fits(children[|children| - 1].argp)
  }

  // ----- the counter as a number -----

  /** How many levels a tree has: one for each argp with alternatives, in preorder. */
  function NumLevels(a: Argp): nat
    decreases a, 1
  {
    (if HasAlternatives(a) then 1 else 0) + NumLevelsOf(a.children)
  }

  function NumLevelsOf(children: seq<Child>): nat
    decreases children, 0
  {
    if children == [] then 0
    else
      assert children[|children| - 1].argp < children[|children| - 1];
      NumLevelsOf(children[..|children| - 1]) + NumLevels(children[|children| - 1].argp)
  }

  /** How many combinations of alternatives a tree has. */
  function Combinations(a: Argp): nat
    decreases a, 1
  {
    CombinationsOf(a.children) * Alternatives(a)
  }

  function CombinationsOf(children: seq<Child>): nat
    decreases children, 0
  {
    if children == [] then 1
    else
      assert children[|children| - 1].argp < children[|children| - 1];
      CombinationsOf(children[..|children| - 1]) * Combinations(children[|children| - 1].argp)
  }

  /** Levels that each stand for a line of their argp. */
  predicate InRange(a: Argp, levels: seq<int>)
    decreases a, 1
  {
    && |levels| == NumLevels(a)
    && (HasAlternatives(a) ==> Stands(a, levels[0]))
    && InRangeOf(a.children, levels[if HasAlternatives(a) then 1 else 0..])
  }

  predicate InRangeOf(children: seq<Child>, levels: seq<int>)
    decreases children, 0
  {
    && |levels| == NumLevelsOf(children)
    && (children != [] ==>
          assert children[|children| - 1].argp < children[|children| - 1];
          var init := children[..|children| - 1];
          InRangeOf(init, levels[..NumLevelsOf(init)])
          && InRange(children[|children| - 1].argp, levels[NumLevelsOf(init)..]))
  }

  /** The number the levels stand for: the levels of the first child count fastest, an argp's own level slowest. */
  function Value(a: Argp, levels: seq<int>): int
    requires |levels| == NumLevels(a)
    decreases a, 1
  {
    if HasAlternatives(a) then ValueOf(a.children, levels[1..]) + CombinationsOf(a.children) * levels[0]
    else ValueOf(a.children, levels)
  }

  function ValueOf(children: seq<Child>, levels: seq<int>): int
    requires |levels| == NumLevelsOf(children)
    decreases children, 0
  {
    if children == [] then 0
    else
      assert children[|children| - 1].argp < children[|children| - 1];
      var init := children[..|children| - 1];
      ValueOf(init, levels[..NumLevelsOf(init)])
      + CombinationsOf(init) * Value(children[|children| - 1].argp, levels[NumLevelsOf(init)..])
  }

  /** What is printed: the chosen line of every argp that documents operands, in preorder. */
  function Pattern(a: Argp, levels: seq<int>): seq<string>
    requires InRange(a, levels)
    decreases a, 1
  {
    (if HasAlternatives(a) then [Lines(a.argsDoc.value, 0)[LineOf(levels[0])]]
     else if a.argsDoc.Some? then [a.argsDoc.value]
     else [])
    + PatternOf(a.children, levels[if HasAlternatives(a) then 1 else 0..])
  }

  function PatternOf(children: seq<Child>, levels: seq<int>): seq<string>
    requires InRangeOf(children, levels)
    decreases children, 0
  {
    if children == [] then []
    else
      assert children[|children| - 1].argp < children[|children| - 1];
      var init := children[..|children| - 1];
      PatternOf(init, levels[..NumLevelsOf(init)])
      + Pattern(children[|children| - 1].argp, levels[NumLevelsOf(init)..])
  }

  /** The operand descriptions of all argps of a tree, in preorder. */
  function Docs(a: Argp): seq<string>
    decreases a, 1
  {
    (if a.argsDoc.Some? then [a.argsDoc.value] else []) + DocsOf(a.children)
  }

  function DocsOf(children: seq<Child>): seq<string>
    decreases children, 0
  {
    if children == [] then []
    else
      assert children[|children| - 1].argp < children[|children| - 1];
      DocsOf(children[..|children| - 1]) + Docs(children[|children| - 1].argp)
  }

  /** How many of the first n texts have more than one line. */
  function NumMulti(docs: seq<string>, n: nat): nat
    requires n <= |docs|
  {
    if n == 0 then 0 else NumMulti(docs, n - 1) + if '\n' in docs[n - 1] then 1 else 0
  }

  /** Of each text its only line is printed, or the one with the number that the next level says. */
  ghost predicate Chosen(docs: seq<string>, levels: seq<int>, printed: seq<string>) {
    && |printed| == |docs| && |levels| == NumMulti(docs, |docs|)
    && forall k :: 0 <= k < |docs| ==> ChosenAt(docs, levels, printed, k)
  }

  ghost predicate ChosenAt(docs: seq<string>, levels: seq<int>, printed: seq<string>, k: nat)
    requires k < |docs| == |printed|
  {
    if '\n' !in docs[k] then printed[k] == docs[k]
    else
      var i := NumMulti(docs, k);
      i < |levels| && LineOf(levels[i]) < |Lines(docs[k], 0)| && printed[k] == Lines(docs[k], 0)[LineOf(levels[i])]
  }

  lemma {:induction false} NumMultiJoined(docs: seq<string>, more: seq<string>, n: nat)
    requires n <= |docs| + |more|
    ensures NumMulti(docs + more, n)
            == if n <= |docs| then NumMulti(docs, n) else NumMulti(docs, |docs|) + NumMulti(more, n - |docs|)
  {
    if n > 0 {
      NumMultiJoined(docs, more, n - 1);
    }
  }

  lemma ChosenJoined(docs: seq<string>, levels: seq<int>, printed: seq<string>,
                     docs': seq<string>, levels': seq<int>, printed': seq<string>)
    requires Chosen(docs, levels, printed) && Chosen(docs', levels', printed')
    ensures Chosen(docs + docs', levels + levels', printed + printed')
  {
    var all := docs + docs';
    NumMultiJoined(docs, docs', |all|);
    forall k | 0 <= k < |all|
      ensures ChosenAt(all, levels + levels', printed + printed', k)
    {
      NumMultiJoined(docs, docs', k);
      if k < |docs| {
        assert ChosenAt(docs, levels, printed, k);
      } else {
        assert ChosenAt(docs', levels', printed', k - |docs|);
      }
    }
  }

  /** The pattern is the chosen line of every description in the tree, in preorder. */
  lemma {:induction false} PatternIsChosen(a: Argp, levels: seq<int>)
    requires InRange(a, levels)
    ensures Chosen(Docs(a), levels, Pattern(a, levels))
    decreases a, 1
  {
    var n := if HasAlternatives(a) then 1 else 0;
    var own := if a.argsDoc.Some? then [a.argsDoc.value] else [];
    var printed := if HasAlternatives(a) then [Lines(a.argsDoc.value, 0)[LineOf(levels[0])]] else own;
    PatternOfIsChosen(a.children, levels[n..]);
    OwnChosen(own, levels[..n], printed);
    ChosenJoined(own, levels[..n], printed, DocsOf(a.children), levels[n..], PatternOf(a.children, levels[n..]));
    assert levels == levels[..n] + levels[n..];
  }

  lemma OwnChosen(docs: seq<string>, levels: seq<int>, printed: seq<string>)
    requires |printed| == |docs| <= 1
    requires docs != [] && '\n' in docs[0] ==> |levels| == 1 && LineOf(levels[0]) < |Lines(docs[0], 0)|
                                               && printed[0] == Lines(docs[0], 0)[LineOf(levels[0])]
    requires docs == [] || '\n' !in docs[0] ==> levels == [] && printed == docs
    ensures Chosen(docs, levels, printed)
  {
    assert NumMulti(docs, 0) == 0;
    if docs != [] {
      assert ChosenAt(docs, levels, printed, 0);
    }
  }

  lemma {:induction false} PatternOfIsChosen(children: seq<Child>, levels: seq<int>)
    requires InRangeOf(children, levels)
    ensures Chosen(DocsOf(children), levels, PatternOf(children, levels))
    decreases children, 0
  {
    if children != [] {
      var init, last := children[..|children| - 1], children[|children| - 1];
      var n := NumLevelsOf(init);
      assert last.argp < last;
      PatternOfIsChosen(init, levels[..n]);
      PatternIsChosen(last.argp, levels[n..]);
      ChosenJoined(DocsOf(init), levels[..n], PatternOf(init, levels[..n]),
                   Docs(last.argp), levels[n..], Pattern(last.argp, levels[n..]));
      assert levels == levels[..n] + levels[n..];
    }
  }

  // ----- the number counts the combinations -----

  lemma TimesMonotone(base: int, x: int, y: int)
    requires 0 <= base && x <= y
    ensures base * x <= base * y
  {
  }

  lemma MixedRadix(low: int, base: int, high: int, top: int)
    requires 0 <= low < base && 0 <= high < top
    ensures 0 <= low + base * high < base * top
    ensures low + base * high + 1 == base * top <==> low + 1 == base && high + 1 == top
  {
    TimesMonotone(base, high, top - 1);
    assert base * (top - 1) == base * top - base;
    if high + 1 < top {
      TimesMonotone(base, high + 1, top - 1);
      assert base * (high + 1) == base * high + base;
    }
  }

  lemma MixedRadixLess(low: int, high: int, low': int, high': int, base: int)
    requires 0 <= low < base && 0 <= low' < base && high < high'
    ensures low + base * high < low' + base * high'
  {
    TimesMonotone(base, high + 1, high');
    assert base * (high + 1) == base * high + base;
  }

  lemma MixedRadixInjective(low: int, high: int, low': int, high': int, base: int)
    requires 0 <= low < base && 0 <= low' < base && 0 <= high && 0 <= high'
    requires low + base * high == low' + base * high'
    ensures low == low' && high == high'
  {
    if high < high' {
      MixedRadixLess(low, high, low', high', base);
    } else if high' < high {
      MixedRadixLess(low', high', low, high, base);
    }
  }

  /** Every level is at its last line. */
  predicate AtLast(a: Argp, levels: seq<int>)
    requires |levels| == NumLevels(a)
    decreases a, 1
  {
    if HasAlternatives(a) then levels[0] + 1 == Alternatives(a) && AtLastOf(a.children, levels[1..])
    else AtLastOf(a.children, levels)
  }

  predicate AtLastOf(children: seq<Child>, levels: seq<int>)
    requires |levels| == NumLevelsOf(children)
    decreases children, 0
  {
    children != [] ==>
      assert children[|children| - 1].argp < children[|children| - 1];
      var init := children[..|children| - 1];
      AtLastOf(init, levels[..NumLevelsOf(init)]) && AtLast(children[|children| - 1].argp, levels[NumLevelsOf(init)..])
  }

  /** The number is below the number of combinations, and it is the last one exactly if every level is at its last
      line. */
  lemma {:induction false} ValueBounds(a: Argp, levels: seq<int>)
    requires Fits(a) && InRange(a, levels)
    ensures 0 <= Value(a, levels) < Combinations(a)
    ensures Value(a, levels) + 1 == Combinations(a) <==> AtLast(a, levels)
    decreases a, 1
  {
    if HasAlternatives(a) {
      ValueOfBounds(a.children, levels[1..]);
      MixedRadix(ValueOf(a.children, levels[1..]), CombinationsOf(a.children), levels[0], Alternatives(a));
    } else {
      assert levels[0..] == levels;
      ValueOfBounds(a.children, levels);
      OneAlternative(a);
    }
  }

  lemma OneAlternative(a: Argp)
    requires !HasAlternatives(a)
    ensures Alternatives(a) == 1
  {
    if a.argsDoc.Some? {
      assert a.argsDoc.value[0..] == a.argsDoc.value;
    }
  }

  lemma {:induction false} ValueOfBounds(children: seq<Child>, levels: seq<int>)
    requires FitsOf(children) && InRangeOf(children, levels)
    ensures 0 <= ValueOf(children, levels) < CombinationsOf(children)
    ensures ValueOf(children, levels) + 1 == CombinationsOf(children) <==> AtLastOf(children, levels)
    decreases children, 0
  {
    if children != [] {
      var init, last := children[..|children| - 1], children[|children| - 1];
      assert last.argp < last;
      var n := NumLevelsOf(init);
      ValueOfBounds(init, levels[..n]);
      ValueBounds(last.argp, levels[n..]);
      MixedRadix(ValueOf(init, levels[..n]), CombinationsOf(init), Value(last.argp, levels[n..]),
                 Combinations(last.argp));
    }
  }

  /** Different combinations have different numbers. */
  lemma {:induction false} ValueInjective(a: Argp, levels: seq<int>, levels': seq<int>)
    requires Fits(a) && InRange(a, levels) && InRange(a, levels') && Value(a, levels) == Value(a, levels')
    ensures levels == levels'
    decreases a, 1
  {
    if HasAlternatives(a) {
      ValueOfBounds(a.children, levels[1..]);
      ValueOfBounds(a.children, levels'[1..]);
      MixedRadixInjective(ValueOf(a.children, levels[1..]), levels[0], ValueOf(a.children, levels'[1..]), levels'[0],
                          CombinationsOf(a.children));
      ValueOfInjective(a.children, levels[1..], levels'[1..]);
      assert levels == [levels[0]] + levels[1..] && levels' == [levels'[0]] + levels'[1..];
    } else {
      assert levels[0..] == levels && levels'[0..] == levels';
      ValueOfInjective(a.children, levels, levels');
    }
  }

  lemma {:induction false} ValueOfInjective(children: seq<Child>, levels: seq<int>, levels': seq<int>)
    requires FitsOf(children) && InRangeOf(children, levels) && InRangeOf(children, levels')
    requires ValueOf(children, levels) == ValueOf(children, levels')
    ensures levels == levels'
    decreases children, 0
  {
    if children != [] {
      var init, last := children[..|children| - 1], children[|children| - 1];
      assert last.argp < last;
      var n := NumLevelsOf(init);
      ValueOfBounds(init, levels[..n]);
      ValueOfBounds(init, levels'[..n]);
      ValueBounds(last.argp, levels[n..]);
      ValueBounds(last.argp, levels'[n..]);
      MixedRadixInjective(ValueOf(init, levels[..n]), Value(last.argp, levels[n..]),
                          ValueOf(init, levels'[..n]), Value(last.argp, levels'[n..]), CombinationsOf(init));
      ValueOfInjective(init, levels[..n], levels'[..n]);
      ValueInjective(last.argp, levels[n..], levels'[n..]);
      assert levels == levels[..n] + levels[n..] && levels' == levels'[..n] + levels'[n..];
    }
  }

  /** All levels at their first line: the number 0. */
  lemma {:induction false} ValueOfZeros(a: Argp, levels: seq<int>)
    requires |levels| == NumLevels(a) && forall i :: 0 <= i < |levels| ==> levels[i] == 0
    ensures InRange(a, levels) && Value(a, levels) == 0
    decreases a, 1
  {
    ValueOfZerosOf(a.children, levels[if HasAlternatives(a) then 1 else 0..]);
    assert levels[0..] == levels;
  }

  lemma {:induction false} ValueOfZerosOf(children: seq<Child>, levels: seq<int>)
    requires |levels| == NumLevelsOf(children) && forall i :: 0 <= i < |levels| ==> levels[i] == 0
    ensures InRangeOf(children, levels) && ValueOf(children, levels) == 0
    decreases children, 0
  {
    if children != [] {
      var init, last := children[..|children| - 1], children[|children| - 1];
      assert last.argp < last;
      ValueOfZerosOf(init, levels[..NumLevelsOf(init)]);
      ValueOfZeros(last.argp, levels[NumLevelsOf(init)..]);
    }
  }

  // ----- one step of the counter -----

  /** What a call does to the level of an argp with alternatives, and whether it passes the carry on. */
  function LevelCalled(a: Argp, level: int, carry: bool): (int, bool) {
    if !carry then (level, false)
    else if LineOf(level) + 1 < Alternatives(a) then (CharNext(level), false)
    else (if level > 0 then 0 else level, true)
  }

  /** What a call does to the levels of a tree, and whether it passes the carry on. */
  function Called(a: Argp, levels: seq<int>, advance: bool): (r: (seq<int>, bool))
    requires |levels| == NumLevels(a)
    ensures |r.0| == |levels|
    decreases a, 1
  {
    if HasAlternatives(a) then
      var below := CalledOf(a.children, levels[1..], advance);
      var own := LevelCalled(a, levels[0], below.1);
      ([own.0] + below.0, own.1)
    else CalledOf(a.children, levels, advance)
  }

  function CalledOf(children: seq<Child>, levels: seq<int>, advance: bool): (r: (seq<int>, bool))
    requires |levels| == NumLevelsOf(children)
    ensures |r.0| == |levels|
    decreases children, 0
  {
    if children == [] then ([], advance)
    else
      assert children[|children| - 1].argp < children[|children| - 1];
      var init := children[..|children| - 1];
      var before := CalledOf(init, levels[..NumLevelsOf(init)], advance);
      var last := Called(children[|children| - 1].argp, levels[NumLevelsOf(init)..], before.1);
      (before.0 + last.0, last.1)
  }

  lemma CalledSnoc(init: seq<Child>, last: Child, b1: seq<int>, b2: seq<int>, advance: bool)
    requires |b1| == NumLevelsOf(init) && |b2| == NumLevels(last.argp)
    ensures NumLevelsOf(init + [last]) == |b1 + b2|
    ensures var before := CalledOf(init, b1, advance);
            var after := Called(last.argp, b2, before.1);
            CalledOf(init + [last], b1 + b2, advance) == (before.0 + after.0, after.1)
  {
    assert (init + [last])[..|init|] == init;
    assert (b1 + b2)[..|b1|] == b1 && (b1 + b2)[|b1|..] == b2;
  }

  /** Without a carry nothing changes, and none is passed on. */
  lemma {:induction false} CalledIdle(a: Argp, levels: seq<int>)
    requires |levels| == NumLevels(a)
    ensures Called(a, levels, false) == (levels, false)
    decreases a, 1
  {
    if HasAlternatives(a) {
      CalledOfIdle(a.children, levels[1..]);
      assert levels == [levels[0]] + levels[1..];
    } else {
      CalledOfIdle(a.children, levels);
    }
  }

  lemma {:induction false} CalledOfIdle(children: seq<Child>, levels: seq<int>)
    requires |levels| == NumLevelsOf(children)
    ensures CalledOf(children, levels, false) == (levels, false)
    decreases children, 0
  {
    if children != [] {
      var init, last := children[..|children| - 1], children[|children| - 1];
      assert last.argp < last;
      var n := NumLevelsOf(init);
      CalledOfIdle(init, levels[..n]);
      CalledIdle(last.argp, levels[n..]);
      assert levels == levels[..n] + levels[n..];
    }
  }

  /** A call keeps every level a char that stands for a line, in any tree. */
  lemma {:induction false} CalledInRange(a: Argp, levels: seq<int>, advance: bool)
    requires InRange(a, levels)
    ensures InRange(a, Called(a, levels, advance).0)
    decreases a, 1
  {
    var after := Called(a, levels, advance).0;
    if HasAlternatives(a) {
      CalledOfInRange(a.children, levels[1..], advance);
      assert after[1..] == CalledOf(a.children, levels[1..], advance).0;
    } else {
      assert levels[0..] == levels && after[0..] == after;
      CalledOfInRange(a.children, levels, advance);
    }
  }

  lemma {:induction false} CalledOfInRange(children: seq<Child>, levels: seq<int>, advance: bool)
    requires InRangeOf(children, levels)
    ensures InRangeOf(children, CalledOf(children, levels, advance).0)
    decreases children, 0
  {
    if children != [] {
      var init, last := children[..|children| - 1], children[|children| - 1];
      assert last.argp < last;
      var n, after := NumLevelsOf(init), CalledOf(children, levels, advance).0;
      var before := CalledOf(init, levels[..n], advance);
      CalledOfInRange(init, levels[..n], advance);
      CalledInRange(last.argp, levels[n..], before.1);
      assert after[..n] == before.0 && after[n..] == Called(last.argp, levels[n..], before.1).0;
    }
  }

  /** A call on a tree in which some argp has more than 128 alternatives never passes a carry on: the level of that
      argp wraps before it gets to the last line, and what comes after it is never advanced. */
  lemma {:induction false} NeverCarries(a: Argp, levels: seq<int>, advance: bool)
    requires !Fits(a) && InRange(a, levels)
    ensures !Called(a, levels, advance).1
    decreases a, 1
  {
    if HasAlternatives(a) {
      if !FitsOf(a.children) {
        NeverCarriesOf(a.children, levels[1..], advance);
      }
    } else {
      OneAlternative(a);
      assert levels[0..] == levels;
      NeverCarriesOf(a.children, levels, advance);
    }
  }

  lemma {:induction false} NeverCarriesOf(children: seq<Child>, levels: seq<int>, advance: bool)
    requires !FitsOf(children) && InRangeOf(children, levels)
    ensures !CalledOf(children, levels, advance).1
    decreases children, 0
  {
    var init, last := children[..|children| - 1], children[|children| - 1];
    assert last.argp < last;
    var n := NumLevelsOf(init);
    if Fits(last.argp) {
      NeverCarriesOf(init, levels[..n], advance);
      CalledIdle(last.argp, levels[n..]);
    } else {
      NeverCarries(last.argp, levels[n..], CalledOf(init, levels[..n], advance).1);
    }
  }

  /** A number that advances by one, or wraps to 0 and passes the carry on. */
  ghost predicate Counts(before: int, after: int, combinations: int, advance: bool, carry: bool) {
    if !advance then after == before && !carry
    else if before + 1 < combinations then after == before + 1 && !carry
    else after == 0 && carry
  }

  /** Two digits of the counter: the second advances exactly when the first passes its carry on. */
  lemma CountsJoined(low: int, low': int, base: int, high: int, high': int, top: int,
                     advance: bool, carry: bool, carry': bool)
    requires 0 <= low < base && 0 <= low' < base && 0 <= high < top && 0 <= high' < top
    requires Counts(low, low', base, advance, carry) && Counts(high, high', top, carry, carry')
    ensures Counts(low + base * high, low' + base * high', base * top, advance, carry')
  {
    MixedRadix(low, base, high, top);
    if carry && high + 1 < top {
      assert base * high' == base * high + base;
    }
    if carry && high' == 0 {
      assert base * high' == 0;
    }
  }

  /** With up to 128 alternatives everywhere, a call advances the number of the levels. */
  lemma {:induction false} CalledCounts(a: Argp, levels: seq<int>, advance: bool)
    requires Fits(a) && InRange(a, levels)
    ensures var r := Called(a, levels, advance);
            Counts(Value(a, levels), Value(a, r.0), Combinations(a), advance, r.1)
    decreases a, 1
  {
    var r := Called(a, levels, advance);
    if HasAlternatives(a) {
      var below := CalledOf(a.children, levels[1..], advance);
      var own := LevelCalled(a, levels[0], below.1);
      CalledOfCounts(a.children, levels[1..], advance);
      CalledOfInRange(a.children, levels[1..], advance);
      ValueOfBounds(a.children, levels[1..]);
      ValueOfBounds(a.children, below.0);
      assert r.0[0] == own.0 && r.0[1..] == below.0;
      CountsJoined(ValueOf(a.children, levels[1..]), ValueOf(a.children, below.0), CombinationsOf(a.children),
                   levels[0], own.0, Alternatives(a), advance, below.1, own.1);
    } else {
      assert levels[0..] == levels;
      OneAlternative(a);
      CalledOfCounts(a.children, levels, advance);
    }
  }

  lemma {:induction false} CalledOfCounts(children: seq<Child>, levels: seq<int>, advance: bool)
    requires FitsOf(children) && InRangeOf(children, levels)
    ensures var r := CalledOf(children, levels, advance);
            Counts(ValueOf(children, levels), ValueOf(children, r.0), CombinationsOf(children), advance, r.1)
    decreases children, 0
  {
    if children != [] {
      var init, last := children[..|children| - 1], children[|children| - 1];
      assert last.argp < last;
      var n, r := NumLevelsOf(init), CalledOf(children, levels, advance);
      var b1, b2 := levels[..n], levels[n..];
      var before := CalledOf(init, b1, advance);
      var after := Called(last.argp, b2, before.1);
      CalledOfCounts(init, b1, advance);
      CalledCounts(last.argp, b2, before.1);
      CalledOfInRange(init, b1, advance);
      CalledInRange(last.argp, b2, before.1);
      ValueOfBounds(init, b1);
      ValueOfBounds(init, before.0);
      ValueBounds(last.argp, b2);
      ValueBounds(last.argp, after.0);
      assert r.0[..n] == before.0 && r.0[n..] == after.0;
      CountsJoined(ValueOf(init, b1), ValueOf(init, before.0), CombinationsOf(init),
                   Value(last.argp, b2), Value(last.argp, after.0), Combinations(last.argp),
                   advance, before.1, after.1);
    }
  }

  // ----- one call on the array of levels -----

  /** The levels of an argp with alternatives, after its children have been called and its own level updated. */
  lemma UsageWithAlternatives(
    a: Argp, was: seq<int>, now: seq<int>, after: seq<int>, pos: nat, end: nat, level': int,
    advance: bool, carry: bool, more: bool, out: seq<string>, line: seq<string>, printed: seq<string>)
    requires HasAlternatives(a) && pos < |now| && after == now[pos := level']
    requires ChildrenDone(a.children, was, now, pos + 1, end, advance, carry, line, printed)
    requires Stands(a, was[pos]) && (level', !more) == LevelCalled(a, was[pos], carry)
    requires line == out + [Lines(a.argsDoc.value, 0)[LineOf(was[pos])]]
    ensures UsageDone(a, was, after, pos, end, advance, more, out, printed)
  {
    var b, c := was[pos + 1..end], now[pos + 1..end];
    OwnSlices(was, now, after, pos, end, level');
    CalledOwn(a, was[pos], b, advance);
    PatternOwn(a, was[pos], b);
    assert printed == out + ([Lines(a.argsDoc.value, 0)[LineOf(was[pos])]] + PatternOf(a.children, b));
  }

  lemma CalledOwn(a: Argp, level: int, below: seq<int>, advance: bool)
    requires HasAlternatives(a) && |below| == NumLevelsOf(a.children)
    ensures var b := CalledOf(a.children, below, advance);
            var own := LevelCalled(a, level, b.1);
            Called(a, [level] + below, advance) == ([own.0] + b.0, own.1)
  {
    assert ([level] + below)[1..] == below;
  }

  lemma OwnSlices(was: seq<int>, now: seq<int>, after: seq<int>, pos: nat, end: nat, level': int)
    requires Framed(was, now, pos + 1, end) && after == now[pos := level']
    ensures was[pos..end] == [was[pos]] + was[pos + 1..end]
    ensures after[pos..end] == [level'] + now[pos + 1..end]
    ensures Framed(was, after, pos, end)
  {
    assert after[..pos] == now[..pos + 1][..pos] && was[..pos] == was[..pos + 1][..pos];
  }

  lemma PatternOwn(a: Argp, level: int, below: seq<int>)
    requires HasAlternatives(a) && Stands(a, level) && InRangeOf(a.children, below)
    ensures InRange(a, [level] + below)
    ensures Pattern(a, [level] + below) == [Lines(a.argsDoc.value, 0)[LineOf(level)]] + PatternOf(a.children, below)
  {
    assert ([level] + below)[1..] == below;
  }

  lemma UsageWithoutAlternatives(
    a: Argp, was: seq<int>, now: seq<int>, pos: nat, end: nat,
    advance: bool, carry: bool, out: seq<string>, line: seq<string>, printed: seq<string>)
    requires !HasAlternatives(a) && ChildrenDone(a.children, was, now, pos, end, advance, carry, line, printed)
    requires line == out + (if a.argsDoc.Some? then [a.argsDoc.value] else [])
    ensures UsageDone(a, was, now, pos, end, advance, !carry, out, printed)
  {
    var b, c := was[pos..end], now[pos..end];
    assert b[0..] == b && c[0..] == c;
    assert Pattern(a, b) == (if a.argsDoc.Some? then [a.argsDoc.value] else []) + PatternOf(a.children, b);
    assert printed == out + ((if a.argsDoc.Some? then [a.argsDoc.value] else []) + PatternOf(a.children, b));
  }

  /** argp_args_usage: prints the pattern the levels stand for, and advances them. */
  method ArgsUsage(a: Argp, levels: array<int>, pos: nat, advance: bool, out: seq<string>)
    returns (end: nat, more: bool, printed: seq<string>)
    requires Ready(a, levels[..], pos)
    modifies levels
    ensures end == pos + NumLevels(a)
    ensures UsageDone(a, old(levels[..]), levels[..], pos, end, advance, more, out, printed)
    decreases a, 1
  {
    ghost var was := levels[..];
    OwnInRange(a, was, pos, if HasAlternatives(a) then pos + 1 else pos);
    var multiple, hasNext;
    multiple, hasNext, printed := OwnLine(a, if HasAlternatives(a) then levels[pos] else 0, out);
    end := if multiple then pos + 1 else pos;
    ghost var line := printed;
    var carry;
    end, carry, printed := ChildrenUsage(a.children, levels, end, advance, printed);
    ghost var now := levels[..];
    more := !carry;
    if multiple {
      SameLevel(was, now, pos, end);
      more := AdvanceLevel(levels, pos, carry, hasNext, a);
      UsageWithAlternatives(a, was, now, levels[..], pos, end, levels[pos], advance, carry, more, out, line, printed);
    } else {
      UsageWithoutAlternatives(a, was, now, pos, end, advance, carry, out, line, printed);
    }
  }

  lemma SameLevel(was: seq<int>, now: seq<int>, pos: nat, end: nat)
    requires Framed(was, now, pos + 1, end)
    ensures now[pos] == was[pos]
  {
    assert now[pos] == now[..pos + 1][pos] == was[..pos + 1][pos];
  }

  lemma OwnInRange(a: Argp, was: seq<int>, pos: nat, from: nat)
    requires Ready(a, was, pos) && from == if HasAlternatives(a) then pos + 1 else pos
    ensures HasAlternatives(a) ==> pos < |was| && Stands(a, was[pos])
    ensures from + NumLevelsOf(a.children) == pos + NumLevels(a) && ReadyOf(a.children, was, from)
  {
    SliceOfSlice(was, pos, pos + NumLevels(a), from - pos, NumLevels(a), from, from + NumLevelsOf(a.children));
    assert was[pos..pos + NumLevels(a)][from - pos..NumLevels(a)] == was[pos..pos + NumLevels(a)][from - pos..];
  }

  /** Prints the line of an argp that its level stands for. */
  method OwnLine(a: Argp, level: int, out: seq<string>) returns (multiple: bool, hasNext: bool, printed: seq<string>)
    requires HasAlternatives(a) ==> Stands(a, level)
    ensures multiple == HasAlternatives(a) && (multiple ==> hasNext == (LineOf(level) + 1 < Alternatives(a)))
    ensures printed == out + (if HasAlternatives(a) then [Lines(a.argsDoc.value, 0)[LineOf(level)]]
                              else if a.argsDoc.Some? then [a.argsDoc.value]
                              else [])
  {
    multiple, hasNext, printed := false, false, out;
    if a.argsDoc.Some? {
      var doc := a.argsDoc.value;
      var nl := FindNewline(doc, 0);
      LinesStep(doc, 0);
      assert doc[0..] == doc;
      var line := doc;
      if nl < |doc| {
        multiple := true;
        line, hasNext := FindLine(doc, level);
      }
      printed := printed + [line];
    }
  }

  /** The end of argp_args_usage: a carry increments the level, or resets it and is passed on. */
  method AdvanceLevel(levels: array<int>, pos: nat, carry: bool, hasNext: bool, ghost a: Argp) returns (more: bool)
    requires pos < levels.Length && hasNext == (LineOf(levels[pos]) + 1 < Alternatives(a))
    modifies levels
    ensures levels[..] == old(levels[..])[pos := levels[pos]]
    ensures (levels[pos], !more) == LevelCalled(a, old(levels[pos]), carry)
  {
    more := !carry;
    if carry {
      if hasNext {
        levels[pos] := CharNext(levels[pos]);
        more := true;
      } else if levels[pos] > 0 {
        levels[pos] := 0;
      }
    }
  }

  /** The loop of argp_args_usage over the children; the result is the carry. */
  method ChildrenUsage(children: seq<Child>, levels: array<int>, pos: nat, advance: bool, out: seq<string>)
    returns (end: nat, carry: bool, printed: seq<string>)
    requires ReadyOf(children, levels[..], pos)
    modifies levels
    ensures end == pos + NumLevelsOf(children)
    ensures ChildrenDone(children, old(levels[..]), levels[..], pos, end, advance, carry, out, printed)
    decreases children, 0
  {
    end, carry, printed := pos, advance, out;
    ghost var was := levels[..];
    var i := 0;
    while i < |children|
      invariant 0 <= i <= |children|
      invariant end == pos + NumLevelsOf(children[..i])
      invariant ChildrenDone(children[..i], was, levels[..], pos, end, advance, carry, out, printed)
    {
      end, carry, printed := NextChildUsage(children, levels, pos, i, end, carry, printed, was, advance, out);
      i := i + 1;
    }
    assert children[..i] == children;
  }

  method NextChildUsage(children: seq<Child>, levels: array<int>, ghost pos: nat, i: nat, at: nat, advance: bool,
                        soFar: seq<string>, ghost was: seq<int>, ghost first: bool, ghost out: seq<string>)
    returns (end: nat, carry: bool, printed: seq<string>)
    requires i < |children| && ReadyOf(children, was, pos) && at == pos + NumLevelsOf(children[..i])
    requires ChildrenDone(children[..i], was, levels[..], pos, at, first, advance, out, soFar)
    modifies levels
    ensures end == pos + NumLevelsOf(children[..i + 1])
    ensures ChildrenDone(children[..i + 1], was, levels[..], pos, end, first, carry, out, printed)
    decreases children[i]
  {
    ghost var before := levels[..];
    NextChild(children, was, before, pos, at, i);
    var more;
    end, more, printed := ArgsUsage(children[i].argp, levels, at, advance, soFar);
    carry := !more;
    assert children[..i + 1] == children[..i] + [children[i]];
    ChildrenSnoc(children[..i], children[i], was, before, levels[..], pos, at, end, first, advance, carry, out, soFar,
                 printed);
  }

  /** The levels of the next child are still untouched, and in range. */
  lemma NextChild(children: seq<Child>, was: seq<int>, now: seq<int>, pos: nat, end: nat, i: nat)
    requires i < |children| && ReadyOf(children, was, pos)
    requires end == pos + NumLevelsOf(children[..i]) && Framed(was, now, pos, end)
    ensures end + NumLevels(children[i].argp) == pos + NumLevelsOf(children[..i + 1])
    ensures Ready(children[i].argp, now, end)
  {
    var all := was[pos..pos + NumLevelsOf(children)];
    var n, from, to := NumLevels(children[i].argp), NumLevelsOf(children[..i]), NumLevelsOf(children[..i + 1]);
    ChildInRange(children, all, i);
    UntouchedSlice(was, now, pos, end, end + n, all, from, to);
    assert InRange(children[i].argp, all[from..to]);
  }

  lemma UntouchedSlice(
    was: seq<int>, now: seq<int>, pos: nat, end: nat, last: nat, all: seq<int>, from: nat, to: nat)
    requires Framed(was, now, pos, end) && end <= last <= pos + |all| <= |was| && all == was[pos..pos + |all|]
    requires end == pos + from && last == pos + to
    ensures now[end..last] == all[from..to]
  {
    SameSlice(was, now, pos, end, last);
    SliceOfSlice(was, pos, pos + |all|, from, to, end, last);
  }

  lemma SameSlice(was: seq<int>, now: seq<int>, pos: nat, end: nat, last: nat)
    requires Framed(was, now, pos, end) && end <= last <= |now|
    ensures now[end..last] == was[end..last]
  {
    SliceOfSlice(was, end, |was|, 0, last - end, end, last);
    SliceOfSlice(now, end, |now|, 0, last - end, end, last);
    assert was[end..|was|] == was[end..] && now[end..|now|] == now[end..];
  }

  /** The levels of a tree start at pos, and are in range. */
  ghost predicate Ready(a: Argp, levels: seq<int>, pos: nat) {
    pos + NumLevels(a) <= |levels| && InRange(a, levels[pos..pos + NumLevels(a)])
  }

  ghost predicate ReadyOf(children: seq<Child>, levels: seq<int>, pos: nat) {
    pos + NumLevelsOf(children) <= |levels| && InRangeOf(children, levels[pos..pos + NumLevelsOf(children)])
  }

  /** What a call on a tree has done: printed its pattern, and updated its part of the levels. */
  ghost predicate UsageDone(
    a: Argp, was: seq<int>, now: seq<int>, pos: nat, end: nat, advance: bool, more: bool,
    out: seq<string>, printed: seq<string>)
  {
    && pos <= end <= |was| == |now|
    && InRange(a, was[pos..end]) && (now[pos..end], !more) == Called(a, was[pos..end], advance)
    && printed == out + Pattern(a, was[pos..end])
    && Framed(was, now, pos, end)
  }

  /** What the loop over the children has done so far. */
  ghost predicate ChildrenDone(
    done: seq<Child>, was: seq<int>, now: seq<int>, pos: nat, end: nat, advance: bool, carry: bool,
    out: seq<string>, printed: seq<string>)
  {
    && pos <= end <= |was| == |now|
    && InRangeOf(done, was[pos..end]) && (now[pos..end], carry) == CalledOf(done, was[pos..end], advance)
    && printed == out + PatternOf(done, was[pos..end])
    && Framed(was, now, pos, end)
  }

  /** Only the levels in [pos, end) may differ. */
  ghost predicate Framed(was: seq<int>, now: seq<int>, pos: nat, end: nat) {
    pos <= end <= |was| == |now| && now[..pos] == was[..pos] && now[end..] == was[end..]
  }

  lemma FramedJoined(was: seq<int>, before: seq<int>, now: seq<int>, pos: nat, middle: nat, end: nat)
    requires Framed(was, before, pos, middle) && Framed(before, now, middle, end)
    ensures Framed(was, now, pos, end)
    ensures before[middle..end] == was[middle..end]
    ensures now[pos..end] == before[pos..middle] + now[middle..end]
    ensures was[pos..end] == was[pos..middle] + was[middle..end]
  {
    assert now[..pos] == now[..middle][..pos];
    assert now[end..] == before[middle..][end - middle..];
    assert was[end..] == was[middle..][end - middle..];
    assert before[middle..end] == before[middle..][..end - middle];
    assert was[middle..end] == was[middle..][..end - middle];
    assert now[pos..middle] == now[..middle][pos..];
    assert before[pos..middle] == before[..middle][pos..];
  }

  lemma ChildrenSnoc(
    done: seq<Child>, child: Child, was: seq<int>, before: seq<int>, now: seq<int>, pos: nat, middle: nat, end: nat,
    advance: bool, carried: bool, carry: bool, out: seq<string>, soFar: seq<string>, printed: seq<string>)
    requires ChildrenDone(done, was, before, pos, middle, advance, carried, out, soFar)
    requires UsageDone(child.argp, before, now, middle, end, carried, !carry, soFar, printed)
    ensures ChildrenDone(done + [child], was, now, pos, end, advance, carry, out, printed)
  {
    FramedJoined(was, before, now, pos, middle, end);
    var b1, b2, a1, a2 := was[pos..middle], was[middle..end], before[pos..middle], now[middle..end];
    CalledSnoc(done, child, b1, b2, advance);
    PatternSnoc(done, child, b1, b2);
    assert printed == out + (PatternOf(done, b1) + Pattern(child.argp, b2));
    assert was[pos..end] == b1 + b2 && now[pos..end] == a1 + a2;
  }

  lemma PatternSnoc(init: seq<Child>, last: Child, low: seq<int>, high: seq<int>)
    requires InRangeOf(init, low) && InRange(last.argp, high)
    ensures InRangeOf(init + [last], low + high)
    ensures PatternOf(init + [last], low + high) == PatternOf(init, low) + Pattern(last.argp, high)
  {
    var children := init + [last];
    assert children[..|init|] == init;
    assert (low + high)[..|low|] == low && (low + high)[|low|..] == high;
  }

  /** The part of the levels that belongs to one child. */
  lemma {:induction false} ChildInRange(children: seq<Child>, levels: seq<int>, i: nat)
    requires InRangeOf(children, levels) && i < |children|
    ensures NumLevelsOf(children[..i + 1]) == NumLevelsOf(children[..i]) + NumLevels(children[i].argp) <= |levels|
    ensures InRange(children[i].argp, levels[NumLevelsOf(children[..i])..NumLevelsOf(children[..i + 1])])
    decreases |children|
  {
    var init := children[..|children| - 1];
    assert children[..i + 1][..i] == children[..i];
    if i == |init| {
      assert children[..i + 1] == children;
      assert levels[NumLevelsOf(init)..] == levels[NumLevelsOf(init)..|levels|];
    } else {
      var low := levels[..NumLevelsOf(init)];
      ChildInRange(init, low, i);
      assert init[..i] == children[..i] && init[..i + 1] == children[..i + 1];
      var n, m := NumLevelsOf(children[..i]), NumLevelsOf(children[..i + 1]);
      assert low[n..m] == levels[n..m];
    }
  }

  // ----- the usage loop -----

  /** argp_args_levels: as many slots as the counter uses. */
  method CountLevels(a: Argp) returns (levels: nat)
    ensures levels == NumLevels(a)
    decreases a
  {
    levels := CountOwn(a);
    ghost var own := levels;
    var i := 0;
    while i < |a.children|
      invariant 0 <= i <= |a.children|
      invariant levels == own + NumLevelsOf(a.children[..i])
    {
      LevelsSnoc(a.children, i);
      assert a.children[i].argp < a.children[i];
      var more := CountLevels(a.children[i].argp);
      levels := levels + more;
      i := i + 1;
    }
    assert a.children[..i] == a.children;
  }

  method CountOwn(a: Argp) returns (levels: nat)
    ensures levels == if HasAlternatives(a) then 1 else 0
  {
    levels := 0;
    if a.argsDoc.Some? {
      var nl := FindNewline(a.argsDoc.value, 0);
      LinesStep(a.argsDoc.value, 0);
      assert a.argsDoc.value[0..] == a.argsDoc.value;
      if nl < |a.argsDoc.value| {
        levels := levels + 1;
      }
    }
  }

  lemma {:induction false} LevelsSnoc(children: seq<Child>, i: nat)
    requires i < |children|
    ensures NumLevelsOf(children[..i + 1]) == NumLevelsOf(children[..i]) + NumLevels(children[i].argp)
  {
    assert children[..i + 1][..i] == children[..i];
  }

  /** The levels after so many rounds of the loop in _help. */
  function After(a: Argp, n: nat): (r: seq<int>)
    ensures |r| == NumLevels(a)
  {
    if n == 0 then seq(NumLevels(a), i => 0) else Called(a, After(a, n - 1), true).0
  }

  /** Round n of the loop is the first one to say that there are no more patterns. */
  ghost predicate EndsAfter(a: Argp, n: nat) {
    SaysEnd(a, n) && NoneSaysEnd(a, n)
  }

  predicate SaysEnd(a: Argp, n: nat) {
    n > 0 && Called(a, After(a, n - 1), true).1
  }

  ghost predicate NoneSaysEnd(a: Argp, n: nat) {
    forall m: nat :: m < n ==> !SaysEnd(a, m)
  }

  lemma {:induction false} AfterInRange(a: Argp, n: nat)
    ensures InRange(a, After(a, n))
  {
    if n == 0 {
      ValueOfZeros(a, After(a, 0));
    } else {
      AfterInRange(a, n - 1);
      CalledInRange(a, After(a, n - 1), true);
    }
  }

  /** The rounds count through the numbers of all combinations. */
  lemma {:induction false} AfterCounts(a: Argp, n: nat)
    requires Fits(a) && n <= Combinations(a)
    ensures Value(a, After(a, n)) == if n < Combinations(a) then n else 0
    ensures SaysEnd(a, n) <==> n == Combinations(a)
  {
    AfterInRange(a, n);
    ValueBounds(a, After(a, n));
    if n == 0 {
      ValueOfZeros(a, After(a, 0));
    } else {
      AfterCounts(a, n - 1);
      AfterInRange(a, n - 1);
      CalledCounts(a, After(a, n - 1), true);
    }
  }

  /** With more than 128 alternatives somewhere no round says so. */
  lemma NeverEnds(a: Argp, n: nat)
    requires !Fits(a)
    ensures !SaysEnd(a, n)
  {
    if n > 0 {
      AfterInRange(a, n - 1);
      NeverCarries(a, After(a, n - 1), true);
    }
  }

  /** The loop ends after as many patterns as there are combinations if no argp has more than 128 alternatives, and
      otherwise never. */
  lemma LoopEndsIfAndOnlyIfFits(a: Argp, n: nat)
    ensures EndsAfter(a, n) <==> Fits(a) && n == Combinations(a)
  {
    if Fits(a) {
      forall m: nat | m <= Combinations(a)
        ensures SaysEnd(a, m) <==> m == Combinations(a)
      {
        AfterCounts(a, m);
      }
      assert SaysEnd(a, Combinations(a));
    } else {
      NeverEnds(a, n);
    }
  }

  function Newlines(n: nat): (r: string)
    ensures |r| == n && forall k :: 0 <= k < n ==> r[k] == '\n'
  {
    seq(n, i => '\n')
  }

  lemma {:induction false} LinesOfNewlines(n: nat, from: nat)
    requires from <= n
    ensures |Lines(Newlines(n), from)| == n - from + 1
    decreases n - from
  {
    if from < n {
      LinesOfNewlines(n, from + 1);
    }
  }

  /** One argp with 129 alternatives: its loop never ends. */
  lemma OneArgpNeverEnds(n: nat)
    ensures var a := Argp(None, false, Some(Newlines(128)), []); Alternatives(a) == 129 && !EndsAfter(a, n)
  {
    var a := Argp(None, false, Some(Newlines(128)), []);
    LinesOfNewlines(128, 0);
    LoopEndsIfAndOnlyIfFits(a, n);
  }

  /** Round n prints the pattern that the levels stand for after n rounds. */
  ghost predicate RoundPrints(a: Argp, n: nat, pattern: seq<string>) {
    InRange(a, After(a, n)) && pattern == Pattern(a, After(a, n))
  }

  /** The rounds so far have printed the patterns that the levels stood for. */
  ghost predicate AllPrinted(a: Argp, printed: seq<seq<string>>) {
    forall j :: 0 <= j < |printed| ==> RoundPrints(a, j, printed[j])
  }

  lemma {:induction false} OneMorePrinted(a: Argp, printed: seq<seq<string>>, pattern: seq<string>)
    requires AllPrinted(a, printed) && RoundPrints(a, |printed|, pattern)
    ensures AllPrinted(a, printed + [pattern])
  {
  }

  /** The loop of _help over the usage patterns, for at most so many rounds: every round prints the pattern that the
      levels stand for. */
  method PrintPatterns(a: Argp, rounds: nat) returns (printed: seq<seq<string>>, left: seq<int>, more: bool)
    ensures |printed| <= rounds && left == After(a, |printed|)
    ensures forall j :: 0 <= j < |printed| ==> RoundPrints(a, j, printed[j])
    ensures more == !EndsAfter(a, |printed|) && (more ==> |printed| == rounds)
  {
    var numLevels := CountLevels(a);
    var levels := new int[numLevels](_ => 0);
    assert levels[..] == After(a, 0);
    printed := [];
    more := true;
    while more && |printed| < rounds
      invariant |printed| <= rounds && levels[..] == After(a, |printed|)
      invariant AllPrinted(a, printed) && NoneSaysEnd(a, |printed|) && more == !SaysEnd(a, |printed|)
      decreases rounds - |printed|
    {
      var pattern;
      pattern, more := OneRound(a, levels, |printed|);
      OneMorePrinted(a, printed, pattern);
      printed := printed + [pattern];
    }
    left := levels[..];
  }

  /** One round of the loop. */
  method OneRound(a: Argp, levels: array<int>, ghost n: nat) returns (pattern: seq<string>, more: bool)
    requires levels[..] == After(a, n)
    modifies levels
    ensures levels[..] == After(a, n + 1) && RoundPrints(a, n, pattern) && more == !SaysEnd(a, n + 1)
  {
    ghost var now := levels[..];
    AfterInRange(a, n);
    assert now[0..|now|] == now;
    var end;
    end, more, pattern := ArgsUsage(a, levels, 0, true, []);
    assert levels[..][0..end] == levels[..];
  }

  /** When the loop has ended, every combination of alternatives was visited in exactly one round, and every level is
      back at its first line. */
  lemma EveryCombinationOnce(a: Argp, levels: seq<int>)
    requires Fits(a) && InRange(a, levels)
    ensures exists j: nat :: j < Combinations(a) && After(a, j) == levels
                             && forall k: nat :: k < Combinations(a) && After(a, k) == levels ==> k == j
    ensures After(a, Combinations(a)) == seq(NumLevels(a), i => 0)
  {
    var j, top := Value(a, levels), Combinations(a);
    ValueBounds(a, levels);
    AfterCounts(a, j);
    AfterInRange(a, j);
    ValueInjective(a, After(a, j), levels);
    forall k: nat | k < top && After(a, k) == levels
      ensures k == j
    {
      AfterCounts(a, k);
    }
    AfterCounts(a, top);
    AfterInRange(a, top);
    ValueOfZeros(a, After(a, 0));
    ValueInjective(a, After(a, top), After(a, 0));
  }

  /** The number of combinations is the product of the numbers of alternatives over all argps of the tree. */
  function AlternativeCounts(a: Argp): seq<nat>
    decreases a, 1
  {
    AlternativeCountsOf(a.children) + [Alternatives(a)]
  }

  function AlternativeCountsOf(children: seq<Child>): seq<nat>
    decreases children, 0
  {
    if children == [] then []
    else
      assert children[|children| - 1].argp < children[|children| - 1];
      AlternativeCountsOf(children[..|children| - 1]) + AlternativeCounts(children[|children| - 1].argp)
  }

  function Product(s: seq<nat>): nat {
    if s == [] then 1 else Product(s[..|s| - 1]) * s[|s| - 1]
  }

  lemma {:induction false} ProductJoined(s: seq<nat>, t: seq<nat>)
    ensures Product(s + t) == Product(s) * Product(t)
    decreases |t|
  {
    if t == [] {
      assert s + t == s;
    } else {
      ProductJoined(s, t[..|t| - 1]);
      assert (s + t)[..|s + t| - 1] == s + t[..|t| - 1];
      MulAssoc(Product(s), Product(t[..|t| - 1]), t[|t| - 1]);
    }
  }

  lemma MulAssoc(x: nat, y: nat, z: nat)
    ensures x * y * z == x * (y * z)
  {
  }

  lemma {:induction false} CombinationsIsProduct(a: Argp)
    ensures Combinations(a) == Product(AlternativeCounts(a))
    decreases a, 1
  {
    CombinationsOfIsProduct(a.children);
    assert AlternativeCounts(a)[..|AlternativeCounts(a)| - 1] == AlternativeCountsOf(a.children);
  }

  lemma {:induction false} CombinationsOfIsProduct(children: seq<Child>)
    ensures CombinationsOf(children) == Product(AlternativeCountsOf(children))
    decreases children, 0
  {
    if children != [] {
      var init, last := children[..|children| - 1], children[|children| - 1];
      assert last.argp < last;
      CombinationsOfIsProduct(init);
      CombinationsIsProduct(last.argp);
      ProductJoined(AlternativeCountsOf(init), AlternativeCounts(last.argp));
    }
  }
}
