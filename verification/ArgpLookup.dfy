/** Option lookup and classification of argv elements (argp-parse.c). */
module ArgpLookup {
  import opened Optional
  import opened ArgpModel

  /** An option together with the index of the group that declares it. */
  datatype Located = Located(group: nat, option: ArgpOption)

  function Locate(g: nat, options: seq<ArgpOption>): (r: seq<Located>) {
    seq(|options|, i requires 0 <= i < |options| => Located(g, options[i]))
  }

  /** The options of the first n groups, in the order of the groups. */
  function Flat(groups: seq<Group>, n: nat): seq<Located>
    requires n <= |groups|
  {
    if n == 0 then [] else Flat(groups, n - 1) + Locate(n - 1, groups[n - 1].options)
  }

  /** The options a nested scan has looked at once it is at option o of group g. */
  ghost function Seen(groups: seq<Group>, g: nat, o: nat): seq<Located>
    requires g < |groups| && o <= |groups[g].options|
  {
    Flat(groups, g) + Locate(g, groups[g].options)[..o]
  }

  lemma {:induction false} SeenStep(groups: seq<Group>, g: nat, o: nat)
    requires g < |groups| && o <= |groups[g].options|
    ensures Seen(groups, g, 0) == Flat(groups, g)
    ensures Seen(groups, g, |groups[g].options|) == Flat(groups, g + 1)
    ensures o < |groups[g].options|
            ==> Seen(groups, g, o + 1) == Seen(groups, g, o) + [Located(g, groups[g].options[o])]
    ensures Seen(groups, g, o) <= Flat(groups, |groups|)
  {
    var here := Locate(g, groups[g].options);
    assert here[..|here|] == here;
    assert Flat(groups, g + 1) == Flat(groups, g) + here;
    FlatIsPrefix(groups, g + 1, |groups|);
  }

  lemma {:induction false} FlatIsPrefix(groups: seq<Group>, m: nat, n: nat)
    requires m <= n <= |groups|
    ensures Flat(groups, m) <= Flat(groups, n)
  {
    if m < n {
      FlatIsPrefix(groups, m, n - 1);
    }
  }

  lemma {:induction false} FlatOwner(groups: seq<Group>, n: nat)
    requires n <= |groups|
    ensures forall x :: x in Flat(groups, n) ==> x.group < n && x.option in groups[x.group].options
  {
    if n > 0 {
      FlatOwner(groups, n - 1);
    }
  }

  // ----- short options -----

  /** The first option of s with the given key. */
  function FirstWithKey(s: seq<Located>, key: int): Option<Located> {
    if s == [] then None
    else
      var earlier := FirstWithKey(s[..|s| - 1], key);
      if earlier.Some? then earlier
      else if s[|s| - 1].option.key == key then Some(s[|s| - 1])
      else None
  }

  /** What FirstWithKey means: the match at the least index, or no match at all. */
  lemma {:induction false} FirstWithKeyIsLeast(s: seq<Located>, key: int)
    ensures match FirstWithKey(s, key)
            case None => forall i :: 0 <= i < |s| ==> s[i].option.key != key
            case Some(x) => exists i :: 0 <= i < |s| && s[i] == x && x.option.key == key
                                        && forall j :: 0 <= j < i ==> s[j].option.key != key
  {
    if s != [] {
      var init := s[..|s| - 1];
      FirstWithKeyIsLeast(init, key);
      match FirstWithKey(init, key)
      case None =>
        assert forall i :: 0 <= i < |s| - 1 ==> s[i] == init[i];
      case Some(x) =>
        var i :| 0 <= i < |init| && init[i] == x && x.option.key == key
                 && forall j :: 0 <= j < i ==> init[j].option.key != key;
        assert s[i] == x && forall j :: 0 <= j < i ==> s[j] == init[j];
    }
  }

  lemma FirstWithKeySnoc(s: seq<Located>, x: Located, key: int)
    ensures FirstWithKey(s + [x], key)
            == if FirstWithKey(s, key).Some? then FirstWithKey(s, key)
               else if x.option.key == key then Some(x)
               else None
  {
    assert (s + [x])[..|s|] == s;
  }

  lemma {:induction false} FirstWithKeyExtends(s: seq<Located>, t: seq<Located>, key: int)
    requires s <= t && FirstWithKey(s, key).Some?
    ensures FirstWithKey(t, key) == FirstWithKey(s, key)
    decreases |t|
  {
    if |s| < |t| {
      FirstWithKeyExtends(s, t[..|t| - 1], key);
    } else {
      assert s == t;
    }
  }

  /** find_short_option: the first option in group order whose key is the letter. */
  function ShortOption(groups: seq<Group>, key: int): Option<Located> {
    FirstWithKey(Flat(groups, |groups|), key)
  }

  method FindShortOption(groups: seq<Group>, key: int) returns (r: Option<Located>)
    ensures r == ShortOption(groups, key)
  {
    var g := 0;
    while g < |groups|
      invariant 0 <= g <= |groups|
      invariant FirstWithKey(Flat(groups, g), key).None?
    {
      var o := 0;
      SeenStep(groups, g, 0);
      while o < |groups[g].options|
        invariant 0 <= o <= |groups[g].options|
        invariant FirstWithKey(Seen(groups, g, o), key).None?
      {
        ghost var x := Located(g, groups[g].options[o]);
        SeenStep(groups, g, o);
        FirstWithKeySnoc(Seen(groups, g, o), x, key);
        if groups[g].options[o].key == key {
          SeenStep(groups, g, o + 1);
          FirstWithKeyExtends(Seen(groups, g, o + 1), Flat(groups, |groups|), key);
          return Some(Located(g, groups[g].options[o]));
        }
        o := o + 1;
      }
      g := g + 1;
    }
    return None;
  }

  lemma ShortOptionOwner(groups: seq<Group>, key: int)
    ensures var r := ShortOption(groups, key);
            r.Some? ==> r.value.group < |groups| && r.value.option in groups[r.value.group].options
                        && r.value.option.key == key
  {
    FlatOwner(groups, |groups|);
    FirstWithKeyIsLeast(Flat(groups, |groups|), key);
  }

  // ----- long options -----

  datatype MatchResult = MatchExact | MatchPartial | MatchNo

  /** The part of a long-option argument before its first '='. */
  function Stem(arg: string): string {
    if arg == [] || arg[0] == '=' then [] else [arg[0]] + Stem(arg[1..])
  }

  /** The value written after the first '=' of a long-option argument (strchr(optstart, '=') + 1). */
  function InlineValue(arg: string): Option<string> {
    if arg == [] then None else if arg[0] == '=' then Some(arg[1..]) else InlineValue(arg[1..])
  }

  /** The stem and the inline value split the argument at its first '='. */
  lemma {:induction false} StemAndValue(arg: string)
    ensures '=' !in Stem(arg)
    ensures arg == Stem(arg) + (if InlineValue(arg).Some? then "=" + InlineValue(arg).value else "")
  {
    if arg != [] && arg[0] != '=' {
      StemAndValue(arg[1..]);
    }
  }

  function Matching(arg: string, name: string): MatchResult {
    if Stem(arg) == name then MatchExact
    else if Stem(arg) <= name then MatchPartial
    else MatchNo
  }

  lemma {:induction false} StemFrom(arg: string, i: nat)
    requires i <= |arg| && '=' !in arg[..i]
    ensures Stem(arg) == arg[..i] + Stem(arg[i..])
  {
    if i > 0 {
      assert arg[..i] == [arg[0]] + arg[1..][..i - 1];
      StemFrom(arg[1..], i - 1);
      assert arg[1..][i - 1..] == arg[i..];
    }
  }

  /** match_option: compares up to the '=' and tells an exact match from a proper prefix. */
  method MatchOption(arg: string, name: string) returns (r: MatchResult)
    ensures r == Matching(arg, name)
  {
    var i := 0;
    while i < |arg| && arg[i] != '='
      invariant 0 <= i <= |arg| && i <= |name|
      invariant arg[..i] == name[..i]
      invariant '=' !in arg[..i]
    {
      if i == |name| || arg[i] != name[i] {
        StemFrom(arg, i + 1);
        assert Stem(arg)[i] == arg[i];
        return MatchNo;
      }
      assert arg[..i + 1] == arg[..i] + [arg[i]] && name[..i + 1] == name[..i] + [name[i]];
      i := i + 1;
    }
    StemFrom(arg, i);
    assert Stem(arg) == name[..i];
    return if i < |name| then MatchPartial else MatchExact;
  }

  predicate Matches(x: Located, arg: string, how: MatchResult) {
    x.option.name.Some? && Matching(arg, x.option.name.value) == how
  }

  function FirstExact(s: seq<Located>, arg: string): Option<Located> {
    if s == [] then None
    else
      var earlier := FirstExact(s[..|s| - 1], arg);
      if earlier.Some? then earlier
      else if Matches(s[|s| - 1], arg, MatchExact) then Some(s[|s| - 1])
      else None
  }

  function Partials(s: seq<Located>, arg: string): seq<Located> {
    if s == [] then []
    else Partials(s[..|s| - 1], arg) + (if Matches(s[|s| - 1], arg, MatchPartial) then [s[|s| - 1]] else [])
  }

  /** find_long_option: the first exact match, or else the only abbreviation. */
  function LongOption(groups: seq<Group>, arg: string): Option<Located> {
    LongOptionOf(Flat(groups, |groups|), arg)
  }

  function LongOptionOf(all: seq<Located>, arg: string): Option<Located> {
    var exact := FirstExact(all, arg);
    var partials := Partials(all, arg);
    if exact.Some? then exact
    else if |partials| == 1 then Some(partials[0])
    else None
  }

  lemma {:induction false} FirstExactExtends(s: seq<Located>, t: seq<Located>, arg: string)
    requires s <= t && FirstExact(s, arg).Some?
    ensures FirstExact(t, arg) == FirstExact(s, arg)
    decreases |t|
  {
    if |s| < |t| {
      FirstExactExtends(s, t[..|t| - 1], arg);
    } else {
      assert s == t;
    }
  }

  /** An option has exactly this name. */
  predicate HasName(x: Located, name: string) {
    x.option.name == Some(name)
  }

  /** This text abbreviates the option's name: it is a proper prefix. */
  predicate HasAbbreviation(x: Located, text: string) {
    x.option.name.Some? && text < x.option.name.value
  }

  /** The option at this place is the one that a text stands for: it is the first with exactly this name; or there is
      none, and it is the only one whose name the text abbreviates. */
  ghost predicate StandsFor(all: seq<Located>, text: string, i: nat) {
    && i < |all|
    && if HasName(all[i], text) then forall j :: 0 <= j < i ==> !HasName(all[j], text)
       else
         && HasAbbreviation(all[i], text)
         && (forall j :: 0 <= j < |all| ==> !HasName(all[j], text))
         && forall j :: 0 <= j < |all| && j != i ==> !HasAbbreviation(all[j], text)
  }

  lemma MatchesIs(x: Located, arg: string)
    ensures Matches(x, arg, MatchExact) <==> HasName(x, Stem(arg))
    ensures Matches(x, arg, MatchPartial) <==> HasAbbreviation(x, Stem(arg))
  {
  }

  lemma {:induction false} FirstExactIsFirst(s: seq<Located>, arg: string)
    ensures match FirstExact(s, arg)
            case Some(x) => exists i :: 0 <= i < |s| && s[i] == x && HasName(x, Stem(arg))
                                        && forall j :: 0 <= j < i ==> !HasName(s[j], Stem(arg))
            case None => forall j :: 0 <= j < |s| ==> !HasName(s[j], Stem(arg))
  {
    if s != [] {
      var init := s[..|s| - 1];
      FirstExactIsFirst(init, arg);
      MatchesIs(s[|s| - 1], arg);
      match FirstExact(init, arg)
      case Some(x) =>
        var i :| 0 <= i < |init| && init[i] == x && HasName(x, Stem(arg))
                 && forall j :: 0 <= j < i ==> !HasName(init[j], Stem(arg));
        assert s[i] == x && forall j :: 0 <= j < i ==> s[j] == init[j];
      case None =>
        assert forall j :: 0 <= j < |init| ==> s[j] == init[j];
    }
  }

  /** There is a single abbreviated option exactly if there is a single place with one. */
  ghost predicate OnlyAbbreviated(s: seq<Located>, text: string, i: nat) {
    i < |s| && HasAbbreviation(s[i], text) && forall j :: 0 <= j < |s| && j != i ==> !HasAbbreviation(s[j], text)
  }

  lemma {:induction false} PartialsCounted(s: seq<Located>, arg: string)
    ensures var n, text := |Partials(s, arg)|, Stem(arg);
            && (n == 0 <==> forall j :: 0 <= j < |s| ==> !HasAbbreviation(s[j], text))
            && (n == 1 ==> exists i: nat :: OnlyAbbreviated(s, text, i) && s[i] == Partials(s, arg)[0])
            && (n > 1 ==> forall i: nat :: !OnlyAbbreviated(s, text, i))
  {
    if s != [] {
      var init, last, text := s[..|s| - 1], s[|s| - 1], Stem(arg);
      PartialsCounted(init, arg);
      MatchesIs(last, arg);
      assert forall j :: 0 <= j < |init| ==> s[j] == init[j];
      if HasAbbreviation(last, text) {
        if Partials(init, arg) == [] {
          assert OnlyAbbreviated(s, text, |init|);
        } else {
          SomeAbbreviated(s, init, text);
        }
      } else {
        assert forall i: nat :: OnlyAbbreviated(s, text, i) ==> OnlyAbbreviated(init, text, i);
        if |Partials(init, arg)| == 1 {
          var i: nat :| OnlyAbbreviated(init, text, i) && init[i] == Partials(init, arg)[0];
          assert OnlyAbbreviated(s, text, i);
        }
      }
    }
  }

  lemma SomeAbbreviated(s: seq<Located>, init: seq<Located>, text: string)
    requires s != [] && init == s[..|s| - 1] && HasAbbreviation(s[|s| - 1], text)
    requires exists j :: 0 <= j < |init| && HasAbbreviation(init[j], text)
    ensures forall i: nat :: !OnlyAbbreviated(s, text, i)
  {
    var j :| 0 <= j < |init| && HasAbbreviation(init[j], text);
    assert s[j] == init[j];
  }

  /** find_long_option gives exactly the option that the text up to '=' stands for; none if no option has that name and
      the number of those whose name it abbreviates is not 1. */
  lemma {:induction false} LongOptionIs(groups: seq<Group>, arg: string)
    ensures IsOptionFor(Flat(groups, |groups|), Stem(arg), LongOption(groups, arg))
  {
    LongOptionOfIs(Flat(groups, |groups|), arg);
  }

  lemma {:induction false} LongOptionOfIs(all: seq<Located>, arg: string)
    ensures IsOptionFor(all, Stem(arg), LongOptionOf(all, arg))
  {
    var text := Stem(arg);
    FirstExactIsFirst(all, arg);
    PartialsCounted(all, arg);
    if LongOptionOf(all, arg).Some? {
      var i := PlaceOf(all, arg, LongOptionOf(all, arg).value);
      forall k: nat | StandsFor(all, text, k)
        ensures k == i
      {
        StandsAlone(all, text, i, k);
      }
    }
    forall i: nat | StandsFor(all, text, i)
      ensures !NoneStands(all, text)
    {
      assert HasName(all[i], text) || OnlyAbbreviated(all, text, i);
    }
  }

  /** The option is exactly the one that a text stands for, and none if the text stands for none. */
  ghost predicate IsOptionFor(all: seq<Located>, text: string, r: Option<Located>) {
    && (forall i: nat :: StandsFor(all, text, i) ==> r == Some(all[i]))
    && (r.Some? ==> exists i: nat :: StandsFor(all, text, i) && all[i] == r.value)
    && (r.None? <==> NoneStands(all, text))
  }

  /** No option has the name, and there is not a single one whose name the text abbreviates. */
  ghost predicate NoneStands(all: seq<Located>, text: string) {
    (forall j :: 0 <= j < |all| ==> !HasName(all[j], text)) && forall i: nat :: !OnlyAbbreviated(all, text, i)
  }

  lemma StandsAlone(all: seq<Located>, text: string, i: nat, k: nat)
    requires StandsFor(all, text, i) && StandsFor(all, text, k)
    ensures i == k
  {
  }

  /** The place of the option that is found. */
  lemma PlaceOf(all: seq<Located>, arg: string, x: Located) returns (i: nat)
    requires FirstExact(all, arg) == Some(x)
             || (FirstExact(all, arg) == None && Partials(all, arg) == [x])
    ensures StandsFor(all, Stem(arg), i) && all[i] == x
  {
    FirstExactIsFirst(all, arg);
    PartialsCounted(all, arg);
    if FirstExact(all, arg).Some? {
      i :| 0 <= i < |all| && all[i] == x && HasName(x, Stem(arg))
           && forall j :: 0 <= j < i ==> !HasName(all[j], Stem(arg));
    } else {
      i :| OnlyAbbreviated(all, Stem(arg), i) && all[i] == x;
    }
  }

  /** The only option whose name starts so: an abbreviation is taken for it. */
  lemma AbbreviationIsTaken()
    ensures var verbose := ArgpOption(Some("verbose"), 'v' as int, false, false, false, false, false, 0);
            LongOption([Group([verbose], true, None, 0, 0, 0)], "verb") == Some(Located(0, verbose))
  {
    var verbose := ArgpOption(Some("verbose"), 'v' as int, false, false, false, false, false, 0);
    var groups := [Group([verbose], true, None, 0, 0, 0)];
    assert Flat(groups, 1) == [Located(0, verbose)];
    StemFrom("verb", 4);
    assert StandsFor(Flat(groups, 1), "verb", 0);
    LongOptionIs(groups, "verb");
  }

  lemma TallyStep(s: seq<Located>, x: Located, arg: string, numPartial: nat, matched: Option<Located>)
    requires Tally(s, arg, numPartial, matched)
    ensures Matches(x, arg, MatchExact) ==> FirstExact(s + [x], arg) == Some(x)
    ensures Matches(x, arg, MatchPartial) ==> Tally(s + [x], arg, numPartial + 1, Some(x))
    ensures !Matches(x, arg, MatchExact) && !Matches(x, arg, MatchPartial) ==> Tally(s + [x], arg, numPartial, matched)
  {
    assert (s + [x])[..|s|] == s;
  }

  lemma LongOptionOwner(groups: seq<Group>, arg: string)
    ensures var r := LongOption(groups, arg);
            r.Some? ==> r.value.group < |groups| && r.value.option in groups[r.value.group].options
  {
    FlatOwner(groups, |groups|);
    LongOptionIs(groups, arg);
  }

  /** The first exact match is the result, whatever comes behind it. */
  lemma {:induction false} ExactFound(groups: seq<Group>, g: nat, o: nat, arg: string)
    requires g < |groups| && o < |groups[g].options| && FirstExact(Seen(groups, g, o), arg).None?
    requires Matches(Located(g, groups[g].options[o]), arg, MatchExact)
    ensures LongOption(groups, arg) == Some(Located(g, groups[g].options[o]))
  {
    var s, x := Seen(groups, g, o), Located(g, groups[g].options[o]);
    SeenStep(groups, g, o);
    SeenStep(groups, g, o + 1);
    ExactFoundIn(Flat(groups, |groups|), s, x, arg);
  }

  lemma {:induction false} ExactFoundIn(all: seq<Located>, s: seq<Located>, x: Located, arg: string)
    requires s + [x] <= all && FirstExact(s, arg).None? && Matches(x, arg, MatchExact)
    ensures LongOptionOf(all, arg) == Some(x)
  {
    assert (s + [x])[..|s|] == s;
    FirstExactExtends(s + [x], all, arg);
  }

  method FindLongOption(groups: seq<Group>, arg: string) returns (r: Option<Located>)
    ensures r == LongOption(groups, arg)
  {
    var matched: Option<Located> := None;
    var numPartial := 0;
    var g := 0;
    while g < |groups|
      invariant 0 <= g <= |groups|
      invariant Tally(Flat(groups, g), arg, numPartial, matched)
    {
      var o := 0;
      SeenStep(groups, g, 0);
      while o < |groups[g].options|
        invariant 0 <= o <= |groups[g].options|
        invariant Tally(Seen(groups, g, o), arg, numPartial, matched)
      {
        ghost var x := Located(g, groups[g].options[o]);
        SeenStep(groups, g, o);
        TallyStep(Seen(groups, g, o), x, arg, numPartial, matched);
        if groups[g].options[o].name.Some? {
          var m := MatchOption(arg, groups[g].options[o].name.value);
          match m
          case MatchNo =>
          case MatchPartial =>
            numPartial := numPartial + 1;
            matched := Some(Located(g, groups[g].options[o]));
          case MatchExact =>
            ExactFound(groups, g, o, arg);
            return Some(Located(g, groups[g].options[o]));
        }
        o := o + 1;
      }
      g := g + 1;
    }
    if numPartial == 1 {
      return matched;
    }
    return None;
  }

  /** What the search has recorded about the options seen so far. */
  ghost predicate Tally(seen: seq<Located>, arg: string, numPartial: nat, matched: Option<Located>) {
    && FirstExact(seen, arg).None?
    && numPartial == |Partials(seen, arg)|
    && matched == if numPartial == 0 then None else Some(Partials(seen, arg)[numPartial - 1])
  }

  // ----- classification -----

  datatype Token = ArgArg | ArgQuote | ArgShort(letters: string) | ArgLong(text: string) | ArgLongOnly(text: string)

  /** classify_arg, with the start of the option text as part of the token. */
  function ClassifyArg(longOnly: bool, shortOpts: string, arg: string): (t: Token)
    ensures t.ArgArg? <==> !("-" <= arg) || arg == "-"
    ensures t.ArgQuote? <==> arg == "--"
    ensures t.ArgLong? ==> t.text != [] && arg == "--" + t.text
    ensures t.ArgLongOnly? ==> longOnly && t.text != [] && arg == "-" + t.text
                               && (|t.text| > 1 || t.text[0] !in shortOpts)
    ensures t.ArgShort? ==> t.letters != [] && arg == "-" + t.letters && t.letters[0] != '-'
                            && (longOnly ==> |t.letters| == 1 && t.letters[0] in shortOpts)
  {
    if arg == [] || arg[0] != '-' || |arg| == 1 then ArgArg
    else if arg[1] == '-' then
      if |arg| == 2 then ArgQuote else ArgLong(arg[2..])
    else if longOnly && (|arg| > 2 || arg[1] !in shortOpts) then ArgLongOnly(arg[1..])
    else ArgShort(arg[1..])
  }

  /** A single dash, and an argument that ARGP_LONG_ONLY takes for a long option all the same. */
  predicate IsLongOnly(shortOpts: string, arg: string) {
    "-" < arg && !("--" <= arg) && (|arg| > 2 || arg[1] !in shortOpts)
  }

  /** When an argument is of which kind, and what the text of its option is. */
  lemma KindsOfArg(longOnly: bool, shortOpts: string, arg: string)
    ensures var t := ClassifyArg(longOnly, shortOpts, arg);
            && (t.ArgArg? <==> !("-" <= arg) || arg == "-")
            && (t.ArgQuote? <==> arg == "--")
            && (forall text :: t == ArgLong(text) <==> "--" < arg && text == arg[2..])
            && (forall text :: t == ArgLongOnly(text) <==>
                  longOnly && IsLongOnly(shortOpts, arg) && text == arg[1..])
            && (forall letters :: t == ArgShort(letters) <==>
                  "-" < arg && !("--" <= arg) && !(longOnly && IsLongOnly(shortOpts, arg)) && letters == arg[1..])
  {
    assert "-" < arg && "--" <= arg ==> arg[1] == '-';
    assert |arg| > 1 && arg[0] == '-' && arg[1] == '-' ==> "--" <= arg;
  }
}
