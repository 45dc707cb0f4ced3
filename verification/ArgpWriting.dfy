/**
 What the two-pass scan reads from an argv, in terms of what was written there: a list of options with their values, in
 any of the forms in which argp takes them, with operands in between. Nothing here refers to how the scan works.
 */
module ArgpWriting {
  import opened Optional
  import opened Slices
  import opened ArgpModel
  import opened ArgpLookup
  import opened ArgpTwoPass

  /** How the value of an option is written: not at all, in the same element, or as the next one. */
  datatype How = Bare | Attached(value: string) | Following(value: string)
  {
    function Value(): Option<string> {
      if Bare? then None else Some(value)
    }
  }

  /** An option can be written like this. */
  predicate Allows(option: ArgpOption, how: How) {
    match how
    case Bare => !option.takesArg || option.argOptional
    case Attached(_) => option.takesArg
    case Following(_) => option.takesArg && !option.argOptional
  }

  /** One thing written on a command line: some short options in one element, of which only the last one may have a
      value; a long option; or an operand. */
  datatype Item =
    | Letters(letters: string, options: seq<Located>, how: How)
    | Name(dashes: string, name: string, option: Located, how: How)
    | Operand(text: string)

  /** The element of argv it starts with. */
  function Element(item: Item): string {
    match item
    case Letters(letters, _, how) => "-" + letters + if how.Attached? then how.value else ""
    case Name(dashes, name, _, how) => dashes + name + if how.Attached? then "=" + how.value else ""
    case Operand(text) => text
  }

  function ValueElement(how: How): seq<string> {
    if how.Following? then [how.value] else []
  }

  function Written(item: Item): seq<string> {
    [Element(item)] + if item.Operand? then [] else ValueElement(item.how)
  }

  /** What it stands for: each letter for its option, in order, and the last one with the value. */
  function Delivered(item: Item): seq<Delivery> {
    match item
    case Letters(_, options, how) => LetterDeliveries(options, how)
    case Name(_, _, option, how) => [OptionDelivery(option.group, option.option, how.Value())]
    case Operand(text) => [OperandDelivery(text)]
  }

  function LetterDeliveries(options: seq<Located>, how: How): seq<Delivery> {
    seq(|options|, k requires 0 <= k < |options| =>
      OptionDelivery(options[k].group, options[k].option, if k == |options| - 1 then how.Value() else None))
  }

  /** The letter is ASCII, and this is the first option with it as its key. */
  ghost predicate OwnsLetter(groups: seq<Group>, x: Located, letter: char) {
    var all := Flat(groups, |groups|);
    && letter as int <= 127
    && exists i :: 0 <= i < |all| && all[i] == x && x.option.key == letter as int
                   && forall j :: 0 <= j < i ==> all[j].option.key != letter as int
  }

  /** The letters stand for these options, none of which, but possibly the last one, takes a value. */
  ghost predicate OwnLetters(groups: seq<Group>, letters: string, options: seq<Located>) {
    && |options| == |letters|
    && (forall i :: 0 <= i < |letters| ==> OwnsLetter(groups, options[i], letters[i]))
    && forall i :: 0 <= i < |letters| - 1 ==> !options[i].option.takesArg
  }

  /** The name, or an abbreviation of it, stands for this option. */
  ghost predicate OwnsName(groups: seq<Group>, x: Located, name: string) {
    var all := Flat(groups, |groups|);
    '=' !in name && exists i: nat :: StandsFor(all, name, i) && all[i] == x
  }

  /** An element that holds short options, and one that holds a long option after these dashes. */
  predicate HoldsLetters(c: Config, element: string) {
    "-" < element && !("--" <= element) && !(c.longOnly && IsLongOnly(c.shortOpts, element))
  }

  predicate HoldsName(c: Config, dashes: string, element: string) {
    (dashes == "--" && "--" < element) || (dashes == "-" && c.longOnly && IsLongOnly(c.shortOpts, element))
  }

  predicate IsOperand(text: string) {
    !("-" <= text) || text == "-"
  }

  /** It is written as the options allow. */
  ghost predicate Proper(c: Config, item: Item) {
    match item
    case Letters(letters, options, how) =>
      && letters != "" && HoldsLetters(c, Element(item)) && OwnLetters(c.groups, letters, options)
      && Allows(options[|letters| - 1].option, how) && how != Attached("")
    case Name(dashes, name, option, how) =>
      HoldsName(c, dashes, Element(item)) && OwnsName(c.groups, option, name) && Allows(option.option, how)
    case Operand(text) => IsOperand(text)
  }

  // ----- all that is written -----

  /** What the items are followed by: nothing; `--` and operands; in strict order, an operand and whatever follows it;
      or the first thing that is wrong, and whatever follows it. */
  datatype End =
    | Complete
    | Quote(operands: seq<string>)
    | Strict(operands: seq<string>)
    | BadLetter(letters: string, options: seq<Located>, tail: string, rest: seq<string>)
    | LetterWithoutValue(letters: string, options: seq<Located>)
    | BadName(dashes: string, name: string, value: Option<string>, rest: seq<string>)
    | NameWithValue(dashes: string, name: string, option: Located, extra: string, rest: seq<string>)
    | NameWithoutValue(dashes: string, name: string, option: Located)

  function EndWritten(end: End): seq<string> {
    match end
    case Complete => []
    case Quote(operands) => ["--"] + operands
    case Strict(operands) => operands
    case BadLetter(letters, _, tail, rest) => ["-" + letters + tail] + rest
    case LetterWithoutValue(letters, _) => ["-" + letters]
    case BadName(dashes, name, value, rest) => [NameElement(dashes, name, value)] + rest
    case NameWithValue(dashes, name, _, extra, rest) => [NameElement(dashes, name, Some(extra))] + rest
    case NameWithoutValue(dashes, name, _) => [NameElement(dashes, name, None)]
  }

  function NameElement(dashes: string, name: string, value: Option<string>): string {
    dashes + name + if value.Some? then "=" + value.value else ""
  }

  predicate NeedsValue(option: ArgpOption) {
    option.takesArg && !option.argOptional
  }

  /** No option is given by this letter. */
  ghost predicate NoneHasLetter(all: seq<Located>, letter: char) {
    forall i :: 0 <= i < |all| ==> all[i].option.key != letter as int
  }

  ghost predicate ProperEnd(c: Config, end: End) {
    var all := Flat(c.groups, |c.groups|);
    match end
    case Complete => true
    case Quote(_) => true
    case Strict(operands) => c.ordering == RequireOrder && operands != [] && IsOperand(operands[0])
    case BadLetter(letters, options, tail, _) =>
      && tail != "" && HoldsLetters(c, "-" + letters + tail) && OwnLetters(c.groups, letters, options)
      && (letters != "" ==> !options[|letters| - 1].option.takesArg)
      && (tail[0] as int <= 127 ==> NoneHasLetter(all, tail[0]))
    case LetterWithoutValue(letters, options) =>
      && letters != "" && HoldsLetters(c, "-" + letters) && OwnLetters(c.groups, letters, options)
      && NeedsValue(options[|letters| - 1].option)
    case BadName(dashes, name, value, _) =>
      && '=' !in name && HoldsName(c, dashes, NameElement(dashes, name, value))
      && NoneStands(all, name)
    case NameWithValue(dashes, name, option, extra, _) =>
      && HoldsName(c, dashes, NameElement(dashes, name, Some(extra))) && OwnsName(c.groups, option, name)
      && !option.option.takesArg
    case NameWithoutValue(dashes, name, option) =>
      && HoldsName(c, dashes, NameElement(dashes, name, None)) && OwnsName(c.groups, option, name)
      && NeedsValue(option.option)
  }

  function EndFault(end: End): Option<Diagnostic> {
    match end
    case BadLetter(_, _, tail, _) => if tail != "" && tail[0] as int > 127 then Some(NotAscii) else Some(InvalidLetter)
    case LetterWithoutValue(_, _) => Some(MissingValue)
    case BadName(_, _, _, _) => Some(UnrecognizedOption)
    case NameWithValue(_, _, _, _, _) => Some(UnexpectedValue)
    case NameWithoutValue(_, _, _) => Some(MissingValue)
    case _ => None
  }

  /** The options in the element that is wrong, up to what is wrong. */
  function EndDelivered(end: End): seq<Delivery> {
    match end
    case BadLetter(_, options, _, _) => LetterDeliveries(options, Bare)
    case LetterWithoutValue(_, options) =>
      if options == [] then [] else LetterDeliveries(options[..|options| - 1], Bare)
    case _ => []
  }

  function EndOperands(end: End): seq<string> {
    if end.Quote? || end.Strict? then end.operands else []
  }

  function AllWritten(items: seq<Item>): seq<string> {
    if items == [] then [] else Written(items[0]) + AllWritten(items[1..])
  }

  /** Whether an operand between the options is delivered where it stands. */
  predicate InPlace(c: Config, item: Item) {
    !item.Operand? || c.ordering == ReturnInOrder
  }

  function AllDelivered(c: Config, items: seq<Item>): seq<Delivery> {
    if items == [] then []
    else (if InPlace(c, items[0]) then Delivered(items[0]) else []) + AllDelivered(c, items[1..])
  }

  /** The elements that stay with the options, and those that go behind them. */
  function AllElements(c: Config, items: seq<Item>): seq<string> {
    if items == [] then []
    else (if InPlace(c, items[0]) then Written(items[0]) else []) + AllElements(c, items[1..])
  }

  function AllOperands(c: Config, items: seq<Item>): seq<string> {
    if items == [] then []
    else (if InPlace(c, items[0]) then [] else [items[0].text]) + AllOperands(c, items[1..])
  }

  ghost predicate AllProper(c: Config, items: seq<Item>) {
    && (forall i :: 0 <= i < |items| ==> Proper(c, items[i]))
    && (c.ordering == RequireOrder ==> forall i :: 0 <= i < |items| ==> !items[i].Operand?)
  }

  // ----- what the scan reads -----

  lemma LetterIsFound(groups: seq<Group>, x: Located, letter: char)
    requires OwnsLetter(groups, x, letter)
    ensures ShortOption(groups, letter as int) == Some(x)
  {
    FirstWithKeyIsLeast(Flat(groups, |groups|), letter as int);
  }

  lemma {:induction false} TextOfName(name: string, value: Option<string>, text: string)
    requires '=' !in name && text == name + if value.Some? then "=" + value.value else ""
    ensures Stem(text) == name && InlineValue(text) == value
  {
    if name != "" {
      assert text[1..] == name[1..] + if value.Some? then "=" + value.value else "";
      TextOfName(name[1..], value, text[1..]);
    } else if value.Some? {
      assert text[1..] == value.value;
    }
  }

  lemma NameIsFound(groups: seq<Group>, x: Located, name: string, value: Option<string>, text: string)
    requires OwnsName(groups, x, name) && text == name + if value.Some? then "=" + value.value else ""
    ensures LongOption(groups, text) == Some(x) && InlineValue(text) == value
  {
    TextOfName(name, value, text);
    LongOptionIs(groups, text);
  }

  lemma DeliveriesSplit(options: seq<Located>, how: How)
    requires |options| > 1
    ensures LetterDeliveries(options, how)
            == [OptionDelivery(options[0].group, options[0].option, None)] + LetterDeliveries(options[1..], how)
  {
  }

  lemma PrependTwice(r: Outcome, ds: seq<Delivery>, ds': seq<Delivery>, es: seq<string>, es': seq<string>)
    ensures r.Prepend(ds', es').Prepend(ds, es) == r.Prepend(ds + ds', es + es')
  {
    Joined(ds, ds', r.options);
    Joined(es, es', r.elements);
  }

  /** The last letter of an element, with its value. */
  lemma {:induction false} LastLetterRead(
    c: Config, letter: char, x: Located, how: How, attached: string, rest: seq<string>)
    requires OwnsLetter(c.groups, x, letter) && Allows(x.option, how) && how != Attached("")
    requires attached == if how.Attached? then how.value else ""
    ensures ScanLetters(c, [letter] + attached, ValueElement(how) + rest)
            == Scan(c, rest).Prepend([OptionDelivery(x.group, x.option, how.Value())], ValueElement(how))
  {
    LetterIsFound(c.groups, x, letter);
    assert ([letter] + attached)[1..] == attached;
    match how
    case Following(v) =>
      assert ([v] + rest)[1..] == rest && ([v] + rest)[..1] == [v];
    case _ =>
      assert [] + rest == rest;
  }

  /** A group of letters: one option for each, in order, before what follows. */
  lemma {:induction false} LettersRead(c: Config, letters: string, options: seq<Located>, how: How, attached: string,
                                       rest: seq<string>)
    requires letters != "" && OwnLetters(c.groups, letters, options)
    requires Allows(options[|letters| - 1].option, how) && how != Attached("")
    requires attached == if how.Attached? then how.value else ""
    ensures ScanLetters(c, letters + attached, ValueElement(how) + rest)
            == Scan(c, rest).Prepend(LetterDeliveries(options, how), ValueElement(how))
  {
    if |letters| == 1 {
      LastLetterRead(c, letters[0], options[0], how, attached, rest);
      assert [letters[0]] + attached == letters + attached;
      assert LetterDeliveries(options, how)
             == [OptionDelivery(options[0].group, options[0].option, how.Value())];
    } else {
      FirstLetterRead(c, letters, options, attached, ValueElement(how) + rest);
      LettersRead(c, letters[1..], options[1..], how, attached, rest);
      DeliveriesSplit(options, how);
      PrependTwice(Scan(c, rest), [OptionDelivery(options[0].group, options[0].option, None)],
                   LetterDeliveries(options[1..], how), [], ValueElement(how));
      assert [] + ValueElement(how) == ValueElement(how);
    }
  }

  /** The first of several letters. */
  lemma {:induction false} FirstLetterRead(
    c: Config, letters: string, options: seq<Located>, tail: string, rest: seq<string>)
    requires |letters + tail| > 1 && letters != "" && |options| == |letters|
    requires OwnsLetter(c.groups, options[0], letters[0]) && !options[0].option.takesArg
    ensures letters[1..] + tail != ""
    ensures ScanLetters(c, letters + tail, rest)
            == ScanLetters(c, letters[1..] + tail, rest)
               .Prepend([OptionDelivery(options[0].group, options[0].option, None)], [])
  {
    LetterIsFound(c.groups, options[0], letters[0]);
    assert (letters + tail)[1..] == letters[1..] + tail;
  }

  /** A long option. */
  lemma {:induction false} NameRead(
    c: Config, element: string, text: string, name: string, x: Located, how: How, rest: seq<string>)
    requires OwnsName(c.groups, x, name) && Allows(x.option, how)
    requires text == name + if how.Attached? then "=" + how.value else ""
    ensures ScanLong(c, text, [element] + ValueElement(how) + rest)
            == Scan(c, rest).Prepend([OptionDelivery(x.group, x.option, how.Value())],
                                     [element] + ValueElement(how))
  {
    NameIsFound(c.groups, x, name, if how.Attached? then Some(how.value) else None, text);
    var args := [element] + ValueElement(how) + rest;
    match how
    case Following(v) =>
      assert args[1] == v && args[2..] == rest && args[..2] == [element] + [v];
    case _ =>
      assert args[1..] == rest && args[..1] == [element] && [element] + [] == [element];
  }

  lemma KindOfElement(c: Config, dashes: string, element: string)
    ensures HoldsLetters(c, element) ==> ClassifyArg(c.longOnly, c.shortOpts, element) == ArgShort(element[1..])
    ensures HoldsName(c, dashes, element) ==>
              ClassifyArg(c.longOnly, c.shortOpts, element)
              in {ArgLong(element[|dashes|..]), ArgLongOnly(element[|dashes|..])}
  {
    KindsOfArg(c.longOnly, c.shortOpts, element);
  }

  /** An item other than an operand. */
  lemma {:induction false} OptionRead(c: Config, item: Item, rest: seq<string>)
    requires Proper(c, item) && !item.Operand?
    ensures Scan(c, Written(item) + rest) == Scan(c, rest).Prepend(Delivered(item), Written(item))
  {
    match item
    case Letters(letters, options, how) => LettersItemRead(c, letters, options, how, rest);
    case Name(dashes, name, option, how) => NameItemRead(c, dashes, name, option, how, rest);
  }

  lemma {:induction false} NameItemRead(
    c: Config, dashes: string, name: string, option: Located, how: How, rest: seq<string>)
    requires Proper(c, Name(dashes, name, option, how))
    ensures var item := Name(dashes, name, option, how);
            Scan(c, Written(item) + rest) == Scan(c, rest).Prepend(Delivered(item), Written(item))
  {
    var element := Element(Name(dashes, name, option, how));
    KindOfElement(c, dashes, element);
    assert Written(Name(dashes, name, option, how)) == [element] + ValueElement(how);
    assert element[|dashes|..] == name + if how.Attached? then "=" + how.value else "";
    NameRead(c, element, element[|dashes|..], name, option, how, rest);
  }

  lemma {:induction false} LettersItemRead(
    c: Config, letters: string, options: seq<Located>, how: How, rest: seq<string>)
    requires Proper(c, Letters(letters, options, how))
    ensures var item := Letters(letters, options, how);
            Scan(c, Written(item) + rest) == Scan(c, rest).Prepend(Delivered(item), Written(item))
  {
    var element := Element(Letters(letters, options, how));
    var attached, args := if how.Attached? then how.value else "", [element] + ValueElement(how) + rest;
    KindOfElement(c, "", element);
    assert element[1..] == letters + attached;
    assert args[1..] == ValueElement(how) + rest;
    LettersRead(c, letters, options, how, attached, rest);
    PrependTwice(Scan(c, rest), [], LetterDeliveries(options, how), [element], ValueElement(how));
    assert [] + LetterDeliveries(options, how) == LetterDeliveries(options, how);
  }

  /** A letter that no option has. */
  lemma {:induction false} UnknownLetterRead(c: Config, tail: string, rest: seq<string>)
    requires tail != ""
    requires tail[0] as int <= 127 ==> NoneHasLetter(Flat(c.groups, |c.groups|), tail[0])
    ensures var r := ScanLetters(c, tail, rest);
            r.fault == EndFault(BadLetter("", [], tail, rest)) && r.options == []
  {
    FirstWithKeyIsLeast(Flat(c.groups, |c.groups|), tail[0] as int);
  }

  /** Letters up to one that no option has. */
  lemma {:induction false} BadLetterRead(c: Config, letters: string, options: seq<Located>, tail: string,
                                         rest: seq<string>)
    requires OwnLetters(c.groups, letters, options) && tail != ""
    requires letters != "" ==> !options[|letters| - 1].option.takesArg
    requires tail[0] as int <= 127 ==> NoneHasLetter(Flat(c.groups, |c.groups|), tail[0])
    ensures var r := ScanLetters(c, letters + tail, rest);
            r.fault == EndFault(BadLetter(letters, options, tail, rest)) && r.options == LetterDeliveries(options, Bare)
  {
    if letters == "" {
      assert letters + tail == tail;
      UnknownLetterRead(c, tail, rest);
    } else {
      FirstLetterRead(c, letters, options, tail, rest);
      BadLetterRead(c, letters[1..], options[1..], tail, rest);
      BareSplit(options);
    }
  }

  lemma BareSplit(options: seq<Located>)
    requires options != []
    ensures LetterDeliveries(options, Bare)
            == [OptionDelivery(options[0].group, options[0].option, None)] + LetterDeliveries(options[1..], Bare)
  {
  }

  /** Letters at the end of argv, of which the last one lacks its value. */
  lemma {:induction false} LetterWithoutValueRead(c: Config, letters: string, options: seq<Located>)
    requires letters != "" && OwnLetters(c.groups, letters, options) && NeedsValue(options[|letters| - 1].option)
    ensures var r := ScanLetters(c, letters, []);
            r.fault == Some(MissingValue) && r.options == LetterDeliveries(options[..|options| - 1], Bare)
  {
    if |letters| == 1 {
      LetterIsFound(c.groups, options[0], letters[0]);
    } else {
      NothingAdded(letters, "");
      NothingAdded(letters[1..], "");
      FirstLetterRead(c, letters, options, "", []);
      LetterWithoutValueRead(c, letters[1..], options[1..]);
      assert options[1..][..|options| - 2] == options[..|options| - 1][1..];
      BareSplit(options[..|options| - 1]);
    }
  }

  function EndElements(end: End): seq<string> {
    if end.Quote? then ["--"] else []
  }

  /** An element with a long option is read as its name and its value. */
  lemma {:induction false} NameElementRead(
    c: Config, dashes: string, name: string, value: Option<string>, rest: seq<string>)
    returns (text: string)
    requires '=' !in name && HoldsName(c, dashes, NameElement(dashes, name, value))
    ensures Scan(c, [NameElement(dashes, name, value)] + rest)
            == ScanLong(c, text, [NameElement(dashes, name, value)] + rest)
    ensures Stem(text) == name && InlineValue(text) == value
  {
    var element := NameElement(dashes, name, value);
    text := element[|dashes|..];
    KindOfElement(c, dashes, element);
    assert text == name + if value.Some? then "=" + value.value else "";
    TextOfName(name, value, text);
  }

  lemma {:induction false} BadNameRead(
    c: Config, dashes: string, name: string, value: Option<string>, rest: seq<string>)
    requires ProperEnd(c, BadName(dashes, name, value, rest))
    ensures Scan(c, [NameElement(dashes, name, value)] + rest) == Malformed(UnrecognizedOption)
  {
    var text := NameElementRead(c, dashes, name, value, rest);
    LongOptionIs(c.groups, text);
  }

  lemma {:induction false} NameWithValueRead(
    c: Config, dashes: string, name: string, x: Located, extra: string, rest: seq<string>)
    requires ProperEnd(c, NameWithValue(dashes, name, x, extra, rest))
    ensures Scan(c, [NameElement(dashes, name, Some(extra))] + rest) == Malformed(UnexpectedValue)
  {
    var text := NameElementRead(c, dashes, name, Some(extra), rest);
    LongOptionIs(c.groups, text);
  }

  lemma {:induction false} NameWithoutValueRead(c: Config, dashes: string, name: string, x: Located)
    requires ProperEnd(c, NameWithoutValue(dashes, name, x))
    ensures Scan(c, [NameElement(dashes, name, None)]) == Malformed(MissingValue)
  {
    var text := NameElementRead(c, dashes, name, None, []);
    LongOptionIs(c.groups, text);
    assert [NameElement(dashes, name, None)] + [] == [NameElement(dashes, name, None)];
  }

  lemma {:induction false} BadLettersRead(
    c: Config, letters: string, options: seq<Located>, tail: string, rest: seq<string>)
    requires ProperEnd(c, BadLetter(letters, options, tail, rest))
    ensures var end := BadLetter(letters, options, tail, rest);
            var r := Scan(c, EndWritten(end)); r.fault == EndFault(end) && r.options == EndDelivered(end)
  {
    var element := "-" + letters + tail;
    KindOfElement(c, "", element);
    assert element[1..] == letters + tail && ([element] + rest)[1..] == rest;
    BadLetterRead(c, letters, options, tail, rest);
  }

  lemma {:induction false} LettersWithoutValueRead(c: Config, letters: string, options: seq<Located>)
    requires ProperEnd(c, LetterWithoutValue(letters, options))
    ensures var end := LetterWithoutValue(letters, options);
            var r := Scan(c, EndWritten(end)); r.fault == EndFault(end) && r.options == EndDelivered(end)
  {
    var element := "-" + letters;
    KindOfElement(c, "", element);
    var args := [element];
    assert element[1..] == letters && |args[1..]| == 0;
    LetterWithoutValueRead(c, letters, options);
  }

  /** What the scan finds at the end of the items. */
  lemma {:induction false} EndRead(c: Config, end: End)
    requires ProperEnd(c, end)
    ensures Reads(c, [], end, Scan(c, EndWritten(end)))
  {
    match end
    case Complete =>
    case Quote(operands) => KindsOfArg(c.longOnly, c.shortOpts, "--");
    case Strict(operands) => KindsOfArg(c.longOnly, c.shortOpts, operands[0]);
    case BadLetter(letters, options, tail, rest) => BadLettersRead(c, letters, options, tail, rest);
    case LetterWithoutValue(letters, options) => LettersWithoutValueRead(c, letters, options);
    case BadName(dashes, name, value, rest) => BadNameRead(c, dashes, name, value, rest);
    case NameWithValue(dashes, name, x, extra, rest) => NameWithValueRead(c, dashes, name, x, extra, rest);
    case NameWithoutValue(dashes, name, x) => NameWithoutValueRead(c, dashes, name, x);
  }

  /** This is exactly what was written: the options with their values, in order, up to the first thing that is wrong;
      and if nothing is, the operands in order, and the elements that are not operands. */
  ghost predicate Reads(c: Config, items: seq<Item>, end: End, r: Outcome) {
    && r.fault == EndFault(end)
    && r.options == AllDelivered(c, items) + EndDelivered(end)
    && (r.fault.None? ==>
          && r.operands == AllOperands(c, items) + EndOperands(end)
          && r.elements == AllElements(c, items) + EndElements(end))
  }

  /** The scan reads exactly what was written. */
  lemma {:induction false} WrittenIsRead(c: Config, items: seq<Item>, end: End)
    requires AllProper(c, items) && ProperEnd(c, end)
    ensures Reads(c, items, end, Scan(c, AllWritten(items) + EndWritten(end)))
  {
    if items == [] {
      EndRead(c, end);
      assert AllWritten(items) + EndWritten(end) == EndWritten(end);
    } else {
      var rest := AllWritten(items[1..]) + EndWritten(end);
      WrittenIsRead(c, items[1..], end);
      FirstRead(c, items[0], rest);
      ReadsOneMore(c, items, end, Scan(c, rest));
      Joined(Written(items[0]), AllWritten(items[1..]), EndWritten(end));
    }
  }

  function With(c: Config, item: Item, r: Outcome): Outcome {
    if InPlace(c, item) then r.Prepend(Delivered(item), Written(item))
    else r.(operands := [item.text] + r.operands)
  }

  lemma {:induction false} ReadsOneMore(c: Config, items: seq<Item>, end: End, r: Outcome)
    requires items != [] && Reads(c, items[1..], end, r)
    ensures Reads(c, items, end, With(c, items[0], r))
  {
    var item, more := items[0], items[1..];
    if InPlace(c, item) {
      Joined(Delivered(item), AllDelivered(c, more), EndDelivered(end));
      Joined(Written(item), AllElements(c, more), EndElements(end));
      NothingBefore(AllOperands(c, more));
    } else {
      Joined([item.text], AllOperands(c, more), EndOperands(end));
      NothingBefore(AllDelivered(c, more));
      NothingBefore(AllElements(c, more));
    }
  }

  lemma NothingBefore<T>(s: seq<T>)
    ensures [] + s == s
  {
  }

  /** What the first item adds to what the others stand for. */
  lemma {:induction false} FirstRead(c: Config, item: Item, rest: seq<string>)
    requires Proper(c, item) && (c.ordering == RequireOrder ==> !item.Operand?)
    ensures Scan(c, Written(item) + rest) == With(c, item, Scan(c, rest))
  {
    if item.Operand? {
      KindsOfArg(c.longOnly, c.shortOpts, item.text);
      assert Written(item) == [item.text] && ([item.text] + rest)[1..] == rest;
    } else {
      OptionRead(c, item, rest);
    }
  }

  // ----- every argv was written so -----

  lemma OwnerOf(groups: seq<Group>, letter: char) returns (x: Option<Located>)
    ensures match x
            case Some(owner) => OwnsLetter(groups, owner, letter)
            case None => letter as int > 127 || NoneHasLetter(Flat(groups, |groups|), letter)
  {
    FirstWithKeyIsLeast(Flat(groups, |groups|), letter as int);
    x := if letter as int > 127 then None else ShortOption(groups, letter as int);
  }

  /** The letters of an element up to one that takes the rest as its value, or that no option has, or to the end. */
  lemma {:induction false} LettersOfElement(groups: seq<Group>, text: string)
    returns (letters: string, options: seq<Located>, tail: string)
    requires text != ""
    ensures text == letters + tail && OwnLetters(groups, letters, options)
    ensures tail == "" ==> letters != ""
    ensures tail != "" ==>
              || (letters != "" && options[|letters| - 1].option.takesArg)
              || ((letters != "" ==> !options[|letters| - 1].option.takesArg)
                  && (tail[0] as int <= 127 ==> NoneHasLetter(Flat(groups, |groups|), tail[0])))
  {
    var x := OwnerOf(groups, text[0]);
    if x.None? {
      return "", [], text;
    }
    if x.value.option.takesArg || |text| == 1 {
      return [text[0]], [x.value], text[1..];
    }
    letters, options, tail := LettersOfElement(groups, text[1..]);
    if letters == "" {
      return [text[0]], [x.value], tail;
    }
    assert text == [text[0]] + letters + tail;
    return [text[0]] + letters, [x.value] + options, tail;
  }

  /** Every argv is such a list of items with such an end, so that what the scan reads is said for all of them. */
  lemma {:induction false} EveryArgvIsWritten(c: Config, args: seq<string>) returns (items: seq<Item>, end: End)
    ensures AllProper(c, items) && ProperEnd(c, end) && args == AllWritten(items) + EndWritten(end)
    decreases |args|
  {
    if args == [] {
      return [], Complete;
    }
    var item;
    item, end := FirstWritten(c, args);
    match item {
      case None => items := [];
      case Some(it) =>
        var n := |Written(it)|;
        items, end := EveryArgvIsWritten(c, args[n..]);
        var more := items;
        items := [it] + more;
        assert items[1..] == more;
        Joined(Written(it), AllWritten(more), EndWritten(end));
        assert args == Written(it) + args[n..];
    }
  }

  /** The first item, or the end. */
  lemma {:induction false} FirstWritten(c: Config, args: seq<string>) returns (item: Option<Item>, end: End)
    requires args != []
    ensures match item
            case Some(it) =>
              Proper(c, it) && (c.ordering == RequireOrder ==> !it.Operand?) && Written(it) <= args
            case None => ProperEnd(c, end) && args == EndWritten(end)
  {
    end := Complete;
    var element, rest := args[0], args[1..];
    assert args == [element] + rest;
    if IsOperand(element) {
      if c.ordering == RequireOrder {
        return None, Strict(args);
      }
      return Some(Operand(element)), Complete;
    }
    if element == "--" {
      return None, Quote(rest);
    }
    if HoldsLetters(c, element) {
      item, end := LettersWritten(c, args);
    } else {
      item, end := NameWritten(c, if "--" < element then "--" else "-", args);
    }
  }

  lemma {:induction false} LettersWritten(c: Config, args: seq<string>) returns (item: Option<Item>, end: End)
    requires args != [] && HoldsLetters(c, args[0])
    ensures match item
            case Some(it) => Proper(c, it) && !it.Operand? && Written(it) <= args
            case None => ProperEnd(c, end) && args == EndWritten(end)
  {
    end := Complete;
    var rest := args[1..];
    assert args == [args[0]] + rest && args[0] == "-" + args[0][1..];
    var letters, options, tail := LettersOfElement(c.groups, args[0][1..]);
    assert args[0] == "-" + letters + tail;
    if tail == "" {
      assert args[0] == "-" + letters;
      item, end := WholeWritten(c, letters, options, rest);
      return;
    }
    if letters != "" && options[|letters| - 1].option.takesArg {
      item := Some(Letters(letters, options, Attached(tail)));
    } else {
      item, end := None, BadLetter(letters, options, tail, rest);
    }
  }

  /** An element of letters that all stand for options. */
  lemma {:induction false} WholeWritten(c: Config, letters: string, options: seq<Located>, rest: seq<string>)
    returns (item: Option<Item>, end: End)
    requires letters != "" && HoldsLetters(c, "-" + letters) && OwnLetters(c.groups, letters, options)
    ensures match item
            case Some(it) => Proper(c, it) && !it.Operand? && Written(it) <= ["-" + letters] + rest
            case None => ProperEnd(c, end) && ["-" + letters] + rest == EndWritten(end)
  {
    item, end := None, Complete;
    assert "-" + letters + "" == "-" + letters;
    if !NeedsValue(options[|letters| - 1].option) {
      item := Some(Letters(letters, options, Bare));
    } else if rest == [] {
      end := LetterWithoutValue(letters, options);
    } else {
      item := Some(Letters(letters, options, Following(rest[0])));
    }
  }

  lemma {:induction false} NameWritten(
    c: Config, dashes: string, args: seq<string>) returns (item: Option<Item>, end: End)
    requires args != [] && HoldsName(c, dashes, args[0])
    ensures match item
            case Some(it) => Proper(c, it) && !it.Operand? && Written(it) <= args
            case None => ProperEnd(c, end) && args == EndWritten(end)
  {
    end := Complete;
    var rest, text := args[1..], args[0][|dashes|..];
    assert args == [args[0]] + rest && args[0] == dashes + text;
    var name, value := Stem(text), InlineValue(text);
    StemAndValue(text);
    LongOptionIs(c.groups, text);
    assert args[0] == NameElement(dashes, name, value);
    if LongOption(c.groups, text).None? {
      return None, BadName(dashes, name, value, rest);
    }
    var x := LongOption(c.groups, text).value;
    item, end := OwnedWritten(c, dashes, name, value, x, rest);
  }

  /** An element with a name that stands for an option. */
  lemma {:induction false} OwnedWritten(
    c: Config, dashes: string, name: string, value: Option<string>, x: Located, rest: seq<string>)
    returns (item: Option<Item>, end: End)
    requires HoldsName(c, dashes, NameElement(dashes, name, value)) && OwnsName(c.groups, x, name)
    ensures match item
            case Some(it) => Proper(c, it) && !it.Operand? && Written(it) <= [NameElement(dashes, name, value)] + rest
            case None => ProperEnd(c, end) && [NameElement(dashes, name, value)] + rest == EndWritten(end)
  {
    item, end := None, Complete;
    if value.Some? && x.option.takesArg {
      item := Some(Name(dashes, name, x, Attached(value.value)));
    } else if value.Some? {
      end := NameWithValue(dashes, name, x, value.value, rest);
    } else if !NeedsValue(x.option) {
      item := Some(Name(dashes, name, x, Bare));
    } else if rest == [] {
      end := NameWithoutValue(dashes, name, x);
    } else {
      item := Some(Name(dashes, name, x, Following(rest[0])));
    }
  }

  // ----- letters in one element -----

  /** Letters of options that take no value, in one element: one option for each, in order, before all that follows. */
  lemma {:induction false} LettersInOneElement(c: Config, letters: string, options: seq<Located>, rest: seq<string>)
    requires letters != "" && HoldsLetters(c, "-" + letters) && OwnLetters(c.groups, letters, options)
    requires !options[|letters| - 1].option.takesArg
    ensures var r := Scan(c, ["-" + letters] + rest).options;
            && |r| == |letters| + |Scan(c, rest).options| && r[|letters|..] == Scan(c, rest).options
            && forall i :: 0 <= i < |letters| ==> r[i] == OptionDelivery(options[i].group, options[i].option, None)
  {
    var item := Letters(letters, options, Bare);
    assert "-" + letters + "" == "-" + letters;
    assert Written(item) == ["-" + letters];
    OptionRead(c, item, rest);
  }

  /** `-ab`, for two options without values. */
  lemma TwoLettersAreRead()
    ensures var a := ArgpOption(None, 'a' as int, false, false, false, false, false, 0);
            var b := ArgpOption(None, 'b' as int, false, false, false, false, false, 0);
            var c := Config([Group([a, b], true, None, 0, 0, 0)], Permute, false, "");
            Scan(c, ["-ab"]).options == [OptionDelivery(0, a, None), OptionDelivery(0, b, None)]
  {
    var a := ArgpOption(None, 'a' as int, false, false, false, false, false, 0);
    var b := ArgpOption(None, 'b' as int, false, false, false, false, false, 0);
    var c := Config([Group([a, b], true, None, 0, 0, 0)], Permute, false, "");
    TwoLettersAreOwned(c.groups[0], a, b);
    assert c.groups == [c.groups[0]] && "-" + "ab" == "-ab" && "-ab"[1] == 'a';
    LettersInOneElement(c, "ab", [Located(0, a), Located(0, b)], []);
    assert ["-ab"] + [] == ["-ab"];
  }

  lemma TwoLettersAreOwned(g: Group, a: ArgpOption, b: ArgpOption)
    requires g.options == [a, b] && a.key == 'a' as int && b.key == 'b' as int && !a.takesArg
    ensures OwnLetters([g], "ab", [Located(0, a), Located(0, b)])
  {
    var all := [Located(0, a), Located(0, b)];
    assert Flat([g], 0) == [] && Locate(0, [a, b]) == all;
    assert Flat([g], |[g]|) == all;
    assert all[0].option.key == 'a' as int && all[1].option.key == 'b' as int;
    assert OwnsLetter([g], all[0], 'a') && OwnsLetter([g], all[1], 'b');
  }
}
