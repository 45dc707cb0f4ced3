/**
 What parsing an argv means, without any permutation: one left-to-right scan that separates options
 (with their values) from operands. In Permute mode the options come first and the operands afterwards,
 whatever their places in argv; after `--` everything is an operand.
 */
module ArgpTwoPass {
  import opened Optional
  import opened ArgpModel
  import opened ArgpLookup

  datatype Ordering = RequireOrder | Permute | ReturnInOrder

  datatype Config = Config(groups: seq<Group>, ordering: Ordering, longOnly: bool, shortOpts: string)

  /** Something handed to a user parser and consumed. */
  datatype Delivery =
    | OptionDelivery(group: nat, option: ArgpOption, value: Option<string>)
    | OperandDelivery(val: string)

  /** The messages the parser itself prints; NotAscii is the failing assertion in find_short_option. */
  datatype Diagnostic = InvalidLetter | UnrecognizedOption | UnexpectedValue | MissingValue | NotAscii

  /** `options`: the options delivered, in order; `elements`: the argv elements they came from, their separate
      values and the `--`; `operands`: the rest. `fault` is the first malformed option, where the scan stops. */
  datatype Outcome = Outcome(
    options: seq<Delivery>,
    elements: seq<string>,
    operands: seq<string>,
    fault: Option<Diagnostic>)
  {
    function Prepend(ds: seq<Delivery>, es: seq<string>): Outcome {
      this.(options := ds + options, elements := es + elements)
    }
  }

  function Deliveries(operands: seq<string>): (r: seq<Delivery>) {
    seq(|operands|, i requires 0 <= i < |operands| => OperandDelivery(operands[i]))
  }

  function Malformed(d: Diagnostic): Outcome {
    Outcome([], [], [], Some(d))
  }

  function Scan(c: Config, args: seq<string>): Outcome
    decreases |args|, 0
  {
    if args == [] then Outcome([], [], [], None)
    else
      match ClassifyArg(c.longOnly, c.shortOpts, args[0])
      case ArgArg =>
        (match c.ordering
         case Permute =>
           var r := Scan(c, args[1..]);
           r.(operands := [args[0]] + r.operands)
         case RequireOrder => Outcome([], [], args, None)
         case ReturnInOrder => Scan(c, args[1..]).Prepend([OperandDelivery(args[0])], [args[0]]))
      case ArgQuote => Outcome([], [args[0]], args[1..], None)
      case ArgLong(text) => ScanLong(c, text, args)
      case ArgLongOnly(text) => ScanLong(c, text, args)
      case ArgShort(letters) => ScanLetters(c, letters, args[1..]).Prepend([], [args[0]])
  }

  function ScanLong(c: Config, text: string, args: seq<string>): Outcome
    requires args != []
    decreases |args| - 1, |text| + 1
  {
    var found := LongOption(c.groups, text);
    if found.None? then Malformed(UnrecognizedOption)
    else
      var Located(g, option) := found.value;
      var value := InlineValue(text);
      if value.Some? && !option.takesArg then Malformed(UnexpectedValue)
      else if option.takesArg && value.None? && !option.argOptional then
        if |args| == 1 then Malformed(MissingValue)
        else Scan(c, args[2..]).Prepend([OptionDelivery(g, option, Some(args[1]))], args[..2])
      else Scan(c, args[1..]).Prepend([OptionDelivery(g, option, value)], args[..1])
  }

  /** A group of short options; `rest` are the argv elements after the one the letters stand in. */
  function ScanLetters(c: Config, letters: string, rest: seq<string>): Outcome
    requires letters != []
    decreases |rest|, 2 * |letters|
  {
    if letters[0] as int > 127 then Malformed(NotAscii)
    else
      var found := ShortOption(c.groups, letters[0] as int);
      if found.None? then Malformed(InvalidLetter)
      else
        var Located(g, option) := found.value;
        if !option.takesArg then
          ScanRest(c, letters[1..], rest).Prepend([OptionDelivery(g, option, None)], [])
        else if |letters| > 1 then
          Scan(c, rest).Prepend([OptionDelivery(g, option, Some(letters[1..]))], [])
        else if option.argOptional then
          Scan(c, rest).Prepend([OptionDelivery(g, option, None)], [])
        else if rest == [] then Malformed(MissingValue)
        else Scan(c, rest[1..]).Prepend([OptionDelivery(g, option, Some(rest[0]))], rest[..1])
  }

  /** The scan from the middle of an argv: `letters` are those left of the current short-option group. */
  function ScanRest(c: Config, letters: string, rest: seq<string>): Outcome
    decreases |rest|, 2 * |letters| + 1
  {
    if letters == [] then Scan(c, rest) else ScanLetters(c, letters, rest)
  }

  // ----- facts about the scan -----

  /** The scan loses and invents nothing: without a fault, elements and operands are exactly the given arguments. */
  lemma {:induction false} ScanKeepsAll(c: Config, args: seq<string>)
    ensures Scan(c, args).fault.None?
            ==> multiset(Scan(c, args).elements) + multiset(Scan(c, args).operands) == multiset(args)
    decreases |args|, 0
  {
    if args != [] {
      var rest := args[1..];
      match ClassifyArg(c.longOnly, c.shortOpts, args[0])
      case ArgArg =>
        ScanKeepsAll(c, rest);
        FirstKept(args, Scan(c, rest));
      case ArgQuote => FirstKept(args, Outcome([], [], rest, None));
      case ArgLong(text) => ScanLongKeepsAll(c, text, args);
      case ArgLongOnly(text) => ScanLongKeepsAll(c, text, args);
      case ArgShort(letters) =>
        ScanLettersKeepsAll(c, letters, rest);
        FirstKept(args, ScanLetters(c, letters, rest));
    }
  }

  /** Nothing is lost when the first argument becomes an element or an operand. */
  lemma FirstKept(args: seq<string>, r: Outcome)
    requires args != []
    requires r.fault.None? ==> multiset(r.elements) + multiset(r.operands) == multiset(args[1..])
    ensures r.fault.None? ==>
              && multiset([args[0]] + r.elements) + multiset(r.operands) == multiset(args)
              && multiset(r.elements) + multiset([args[0]] + r.operands) == multiset(args)
  {
    assert args == [args[0]] + args[1..];
  }

  lemma {:induction false} ScanLongKeepsAll(c: Config, text: string, args: seq<string>)
    requires args != []
    ensures var r := ScanLong(c, text, args);
            r.fault.None? ==> multiset(r.elements) + multiset(r.operands) == multiset(args)
    decreases |args| - 1, |text| + 1
  {
    var r := ScanLong(c, text, args);
    if r.fault.None? {
      var Located(g, option) := LongOption(c.groups, text).value;
      var n := if option.takesArg && InlineValue(text).None? && !option.argOptional then 2 else 1;
      ScanKeepsAll(c, args[n..]);
      TakenKept(args, n, Scan(c, args[n..]));
    }
  }

  /** Nothing is lost when the first elements go before what a scan of the others has found. */
  lemma TakenKept(args: seq<string>, n: nat, r: Outcome)
    requires n <= |args|
    requires r.fault.None? ==> multiset(r.elements) + multiset(r.operands) == multiset(args[n..])
    ensures r.fault.None? ==> multiset(args[..n] + r.elements) + multiset(r.operands) == multiset(args)
  {
    assert args == args[..n] + args[n..];
  }

  lemma {:induction false} ScanLettersKeepsAll(c: Config, letters: string, rest: seq<string>)
    requires letters != []
    ensures var r := ScanLetters(c, letters, rest);
            r.fault.None? ==> multiset(r.elements) + multiset(r.operands) == multiset(rest)
    decreases |rest|, 2 * |letters|
  {
    var r := ScanLetters(c, letters, rest);
    if r.fault.None? {
      var Located(g, option) := ShortOption(c.groups, letters[0] as int).value;
      if !option.takesArg && |letters| > 1 {
        ScanLettersKeepsAll(c, letters[1..], rest);
        assert r == ScanRest(c, letters[1..], rest).Prepend([OptionDelivery(g, option, None)], []);
        assert r.elements == ScanRest(c, letters[1..], rest).elements;
      } else if !option.takesArg || |letters| > 1 || option.argOptional {
        ScanKeepsAll(c, rest);
        assert r.elements == Scan(c, rest).elements;
      } else {
        ScanKeepsAll(c, rest[1..]);
        assert rest == rest[..1] + rest[1..];
      }
    }
  }

  /** Operands that a scan may find behind the options it left: its own, or any that start with a non-option. */
  ghost predicate Trailing(c: Config, r: Outcome, operands: seq<string>) {
    operands == r.operands || operands == [] || ClassifyArg(c.longOnly, c.shortOpts, operands[0]).ArgArg?
  }

  /** The elements a permuting scan has gathered mean the same in strict POSIX order, whatever operands follow. */
  lemma {:induction false} ElementsInPosixOrder(c: Config, args: seq<string>, operands: seq<string>)
    requires c.ordering == Permute && Scan(c, args).fault.None? && Trailing(c, Scan(c, args), operands)
    ensures Scan(c.(ordering := RequireOrder), Scan(c, args).elements + operands)
            == Scan(c, args).(operands := operands)
    decreases |args|, 0
  {
    var r := Scan(c, args);
    if args == [] {
      assert r.elements + operands == operands;
    } else {
      match ClassifyArg(c.longOnly, c.shortOpts, args[0])
      case ArgArg => ElementsInPosixOrder(c, args[1..], operands);
      case ArgQuote => assert (r.elements + operands)[1..] == operands;
      case ArgLong(text) => LongInPosixOrder(c, text, args, operands);
      case ArgLongOnly(text) => LongInPosixOrder(c, text, args, operands);
      case ArgShort(letters) =>
        LettersInPosixOrder(c, letters, args[1..], operands);
        assert (r.elements + operands)[1..] == ScanLetters(c, letters, args[1..]).elements + operands;
    }
  }

  lemma TakenFirst(taken: seq<string>, tail: seq<string>, operands: seq<string>)
    ensures (taken + tail + operands)[..|taken|] == taken
    ensures (taken + tail + operands)[|taken|..] == tail + operands
  {
  }

  lemma {:induction false} LongInPosixOrder(c: Config, text: string, args: seq<string>, operands: seq<string>)
    requires args != [] && c.ordering == Permute && ScanLong(c, text, args).fault.None?
    requires Trailing(c, ScanLong(c, text, args), operands)
    ensures var r := ScanLong(c, text, args);
            r.elements != [] && r.elements[0] == args[0]
            && ScanLong(c.(ordering := RequireOrder), text, r.elements + operands) == r.(operands := operands)
    decreases |args| - 1, |text| + 1
  {
    var r := ScanLong(c, text, args);
    var Located(g, option) := LongOption(c.groups, text).value;
    var permuted := r.elements + operands;
    if option.takesArg && InlineValue(text).None? && !option.argOptional {
      var tail := Scan(c, args[2..]);
      assert r.operands == tail.operands;
      ElementsInPosixOrder(c, args[2..], operands);
      TakenFirst(args[..2], tail.elements, operands);
      assert permuted[1] == args[..2][1];
    } else {
      var tail := Scan(c, args[1..]);
      assert r.operands == tail.operands;
      ElementsInPosixOrder(c, args[1..], operands);
      TakenFirst(args[..1], tail.elements, operands);
    }
  }

  lemma {:induction false} LettersInPosixOrder(c: Config, letters: string, rest: seq<string>, operands: seq<string>)
    requires letters != [] && c.ordering == Permute && ScanLetters(c, letters, rest).fault.None?
    requires Trailing(c, ScanLetters(c, letters, rest), operands)
    ensures var r := ScanLetters(c, letters, rest);
            ScanLetters(c.(ordering := RequireOrder), letters, r.elements + operands) == r.(operands := operands)
    decreases |rest|, 2 * |letters|
  {
    var posix := c.(ordering := RequireOrder);
    var r := ScanLetters(c, letters, rest);
    var Located(g, option) := ShortOption(c.groups, letters[0] as int).value;
    if !option.takesArg && |letters| > 1 {
      LettersInPosixOrder(c, letters[1..], rest, operands);
      assert r.elements == ScanLetters(c, letters[1..], rest).elements;
    } else if !option.takesArg || |letters| > 1 || option.argOptional {
      ElementsInPosixOrder(c, rest, operands);
      assert r.elements == Scan(c, rest).elements;
    } else {
      ElementsInPosixOrder(c, rest[1..], operands);
      TakenFirst(rest[..1], Scan(c, rest[1..]).elements, operands);
    }
  }

  /** Permuting and then parsing in strict POSIX order gives the same result as parsing with permutation. */
  lemma PermuteThenPosix(c: Config, args: seq<string>)
    requires c.ordering == Permute && Scan(c, args).fault.None?
    ensures var r := Scan(c, args);
            Scan(c.(ordering := RequireOrder), r.elements + r.operands) == r
  {
    ElementsInPosixOrder(c, args, Scan(c, args).operands);
  }
}
