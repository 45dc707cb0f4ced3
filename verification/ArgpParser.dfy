/**
 The argument parser of argp-parse.c: a state machine that walks argv, calls the user parsers, and permutes
 argv in place while it skips operands.
 */
module ArgpParser {
  import opened Optional
  import opened Slices
  import opened ArgpModel
  import opened ArgpLookup
  import opened ArgpTwoPass
  import opened ArgpExchange
  import opened ArgpState

  class Parser {
    const config: Config
    const reply: Replies
    const argv: array<string>

    var next: int
    var firstNonopt: int
    var lastNonopt: int
    /** The letters left of a group of short options; empty for the null pointer. */
    var nextchar: string
    var argsOnly: bool
    var quoted: int
    /** The flag handed to __argp_parse: EBADKEY came from an operand nobody took, or from the end of argv. */
    var argEbadkey: bool
    /** args_processed of every group. */
    const argsProcessed: array<int>

    var calls: nat
    var diagnostic: Option<Diagnostic>

    ghost var log: seq<Delivery>
    /** The elements never looked at (argv[0]), and what the two-pass scan makes of the others. */
    ghost const prefix: seq<string>
    ghost const whole: Outcome

    ghost predicate Valid()
      reads this
    {
      && WithinArgv(reply, argv.Length)
      && argsProcessed.Length == |config.groups|
      && 0 <= firstNonopt <= lastNonopt <= argv.Length
      && 0 <= quoted <= argv.Length
      && 0 <= next <= argv.Length + 1
      && (next > argv.Length ==> firstNonopt == lastNonopt && nextchar == "" && !KeepsOff(reply, argv.Length))
      && (nextchar != "" ==> !argsOnly)
      && (argsOnly ==> firstNonopt == lastNonopt)
      && (config.ordering != Permute ==> firstNonopt == lastNonopt)
    }

    ghost function Now(): Position
      reads this, argv
    {
      Position(argv[..], firstNonopt, lastNonopt, next, nextchar, log)
    }

    /** The run is on the way to the result of the two-pass scan. */
    ghost predicate Tracks()
      reads this, argv
    {
      var onTheWay :=
        if argsOnly then Handing(prefix, whole, argv[..], next, log) else Looking(config, prefix, whole, Now());
      diagnostic.None? && quoted <= next <= argv.Length && (!argsOnly ==> quoted == 0) && onTheWay
    }

    constructor (config: Config, reply: Replies, argv: array<string>, parseArgv0: bool)
      requires WithinArgv(reply, argv.Length)
      ensures this.config == config && this.reply == reply && this.argv == argv
      ensures Valid() && Tracks()
      ensures var start := if argv.Length > 0 && !parseArgv0 then 1 else 0;
              prefix == argv[..start] && whole == Scan(config, argv[start..])
      ensures log == [] && calls == 0
      ensures fresh(argsProcessed) && forall g :: 0 <= g < argsProcessed.Length ==> argsProcessed[g] == 0
    {
      this.config := config;
      this.reply := reply;
      this.argv := argv;
      argsProcessed := new int[|config.groups|](_ => 0);
      firstNonopt, lastNonopt, nextchar, argsOnly, quoted, argEbadkey := 0, 0, "", false, 0, false;
      next := if argv.Length > 0 && !parseArgv0 then 1 else 0;
      calls, diagnostic := 0, None;
      log := [];
      var start := if argv.Length > 0 && !parseArgv0 then 1 else 0;
      prefix := argv[..start];
      whole := Scan(config, argv[start..]);
      new;
      assert Now().Done() == prefix;
    }

    /** group_parse: one call of a user parser. */
    method CallParser(g: nat, kind: CallKind) returns (err: Err)
      requires g < |config.groups|
      modifies this`next, this`calls
      ensures Called(err, calls, next) == GroupParse(config.groups[g], reply, kind, old(calls), old(next))
    {
      if config.groups[g].hasParser {
        var r := reply(calls, kind);
        calls := calls + 1;
        if r.move.Some? {
          next := r.move.value;
        }
        return r.err;
      }
      return BadKey;
    }

    /** exchange: rotates the skipped operands behind the options that follow them. */
    method Exchange()
      requires 0 <= firstNonopt <= lastNonopt <= next <= argv.Length
      modifies argv, this`firstNonopt, this`lastNonopt
      ensures MovedBehind(old(argv[..]), argv[..], old(firstNonopt), old(lastNonopt), next)
      ensures firstNonopt == old(firstNonopt) + (next - old(lastNonopt)) && lastNonopt == next
      ensures multiset(argv[..]) == old(multiset(argv[..]))
    {
      RotatedIsPermutation(argv[..], firstNonopt, lastNonopt, next);
      RotationMovesBehind(argv[..], firstNonopt, lastNonopt, next);
      Rotate(argv, firstNonopt, lastNonopt, next);
      ghost var after := argv[..];
      firstNonopt := firstNonopt + (next - lastNonopt);
      lastNonopt := next;
      assert argv[..] == after;
    }

    /** The loop of parser_parse_arg: offers the operand at `next` to the groups until one of them takes it. */
    method OfferOperand() returns (err: Err, forArgs: bool, group: nat)
      requires argsProcessed.Length == |config.groups|
      modifies this`next, this`calls
      ensures Offered(err, forArgs, group, calls, next) == Offer(config.groups, reply, 0, old(calls), old(next))
    {
      err := BadKey;
      forArgs := true;
      var g := 0;
      ghost var whole := Offer(config.groups, reply, 0, calls, next);
      while g < |config.groups| && err == BadKey
        invariant 0 <= g <= |config.groups|
        invariant err == BadKey ==> forArgs && Offer(config.groups, reply, g, calls, next) == whole
        invariant err != BadKey ==> 0 < g && Offered(err, forArgs, g - 1, calls, next) == whole
      {
        next := next + 1;
        forArgs := false;
        err := CallParser(g, ForArg);
        if err == BadKey {
          next := next - 1;
          forArgs := true;
          err := CallParser(g, ForArgs);
        }
        g := g + 1;
      }
      group := if err == BadKey then g else g - 1;
    }

    /** parser_parse_arg: an operand that is taken counts as consumed together with whatever the user parser
        skipped after it; a user parser that moves `next` back has options looked for again. */
    method ParseArg() returns (err: Err)
      requires Valid() && next < argv.Length && nextchar == ""
      requires config.ordering == Permute ==> argsOnly
      modifies this`next, this`calls, this`argsOnly, this`log, argsProcessed
      ensures var r := Offer(config.groups, reply, 0, old(calls), old(next));
              && err == r.err && calls == r.calls
              && next == (if err == Ok && r.forArgs then argv.Length else r.next)
              && (err == Ok ==> argsProcessed[..] == Credited(old(argsProcessed[..]), r.group, next - old(next)))
      ensures err == Ok ==> log == old(log) + Deliveries(Taken(argv[..], old(next), next))
      ensures err != Ok ==> log == old(log) && argsProcessed[..] == old(argsProcessed[..])
      ensures argsOnly == (old(argsOnly) && !(err == Ok && next <= old(next)))
      ensures err == Ok ==> Valid()
      ensures err != Aborted
      ensures Surplus() == old(Surplus()) + if err == Ok && next > argv.Length then 1 else 0
    {
      var index := next;
      OfferBounds(config.groups, reply, 0, calls, next, argv.Length);
      var forArgs, group;
      err, forArgs, group := OfferOperand();
      if err == Ok {
        Accept(forArgs, group, index);
      }
    }

    /** An operand is taken: as ARGP_KEY_ARGS, together with all that follow. */
    method Accept(forArgs: bool, group: nat, index: nat)
      requires group < argsProcessed.Length && index < argv.Length && (!forArgs ==> next <= argv.Length + 1)
      modifies this`next, this`argsOnly, this`log, argsProcessed
      ensures next == if forArgs then argv.Length else old(next)
      ensures argsProcessed[..] == Credited(old(argsProcessed[..]), group, next - index)
      ensures log == old(log) + Deliveries(Taken(argv[..], index, next))
      ensures argsOnly == (old(argsOnly) && next > index)
      ensures Surplus() == old(Surplus()) + if next > argv.Length then 1 else 0
    {
      if forArgs {
        next := argv.Length;
      }
      Credit(group, index);
    }

    /** The accounting of parser_parse_arg for an operand that a group has taken. */
    method Credit(group: nat, index: nat)
      requires group < argsProcessed.Length && index < argv.Length
      modifies this`argsOnly, this`log, argsProcessed
      ensures argsProcessed[..] == Credited(old(argsProcessed[..]), group, next - index)
      ensures log == old(log) + Deliveries(Taken(argv[..], index, next))
      ensures argsOnly == (old(argsOnly) && next > index)
      ensures next <= argv.Length + 1 ==> Surplus() == old(Surplus()) + if next > argv.Length then 1 else 0
    {
      ghost var was, taken := argsProcessed[..], Taken(argv[..], index, next);
      if next > index {
        argsProcessed[group] := argsProcessed[group] + (next - index);
      } else {
        argsOnly := false;
      }
      assert argsProcessed[..] == Credited(was, group, next - index);
      CreditCounts(was, log, group, next - index, taken);
      log := log + Deliveries(taken);
    }

    /** By how much args_processed over all groups exceeds the number of operands delivered. */
    ghost function Surplus(): int
      reads this, argsProcessed
    {
      Total(argsProcessed[..]) - NumOperands(log)
    }

    /** args_processed accounts for exactly the operands delivered, and for one more once `next` is past the end. */
    ghost predicate Counted()
      reads this, argsProcessed
    {
      Surplus() == if next > argv.Length then 1 else 0
    }

    /** It is ever one too many only with user parsers that do not keep off the end of argv. */
    ghost predicate Accounted()
      reads this, argsProcessed
    {
      Surplus() == 0 || (Surplus() == 1 && !KeepsOff(reply, argv.Length))
    }

    // ----- how a run ends when the user parsers cooperate -----

    /** A malformed option: everything before it has been delivered, and it is reported. */
    ghost predicate Faulted(err: Err)
      reads this
    {
      && whole.fault.Some? && log == whole.options
      && if err == Aborted then whole.fault == Some(NotAscii) && diagnostic.None?
         else err == BadKey && !argEbadkey && diagnostic == whole.fault && whole.fault != Some(NotAscii)
    }

    /** The end of argv, or an operand that every user parser refused. */
    ghost predicate Stopped(err: Err)
      reads this, argv
    {
      && err == BadKey && argEbadkey && diagnostic.None? && next <= argv.Length
      && (Handing(prefix, whole, argv[..], next, log)
          || (config.ordering == ReturnInOrder && Looking(config, prefix, whole, Now())))
      && (next == argv.Length ==> Handing(prefix, whole, argv[..], next, log))
      && (next < argv.Length ==> exists from: nat :: calls == from + 2 * NumParsers(config.groups, 0)
                                                     && Refusals(reply, from, calls))
    }

    /** A user parser reported an error, or an option belongs to a group without a parser. */
    ghost predicate Denied(err: Err)
      reads this
    {
      && log <= Everything(whole)
      && diagnostic.None?
      && (|| (calls > 0 && AnswerOf(err))
          || (err == BadKey && exists g :: 0 <= g < |config.groups| && !config.groups[g].hasParser))
    }

    /** err is the last answer of a user parser: to an option, or to an operand that it did not merely refuse. */
    ghost predicate AnswerOf(err: Err)
      reads this
      requires calls > 0
    {
      || err == reply(calls - 1, ForOption).err
      || (err != BadKey && (err == reply(calls - 1, ForArg).err || err == reply(calls - 1, ForArgs).err))
    }

    ghost predicate Ended(err: Err)
      reads this, argv
    {
      Faulted(err) || Stopped(err) || Denied(err)
    }

    ghost function Rank(): (int, int, int)
      reads this
    {
      (if argsOnly then 0 else 1, argv.Length + 1 - next, |nextchar|)
    }

    // ----- the branches of parser_parse_next -----

    /** Calls the user parser of an option, and records the delivery. */
    method DeliverOption(g: nat, option: ArgpOption, value: Option<string>) returns (err: Err)
      requires g < |config.groups|
      modifies this`next, this`calls, this`log
      ensures Called(err, calls, next) == GroupParse(config.groups[g], reply, ForOption, old(calls), old(next))
      ensures log == if config.groups[g].hasParser then old(log) + [OptionDelivery(g, option, value)] else old(log)
      ensures NumOperands(log) == NumOperands(old(log))
    {
      if config.groups[g].hasParser {
        NumOperandsOfOption(log, OptionDelivery(g, option, value));
        log := log + [OptionDelivery(g, option, value)];
      }
      err := CallParser(g, ForOption);
    }

    /** An option has just been taken, with n elements from `before` on, and handed to its user parser. */
    lemma OptionTracked(before: Position, n: nat, g: nat, option: ArgpOption, value: Option<string>, err: Err)
      requires Looking(config, prefix, whole, before) && before.next + n == next <= argv.Length
      requires before == Now().(next := before.next, letters := before.letters, log := before.log)
      requires !argsOnly && diagnostic.None? && quoted == 0 && g < |config.groups|
      requires ScanRest(config, before.letters, argv[before.next..])
               == ScanRest(config, nextchar, argv[next..])
                  .Prepend([OptionDelivery(g, option, value)], argv[before.next..next])
      requires log == if config.groups[g].hasParser then before.log + [OptionDelivery(g, option, value)] else before.log
      requires if config.groups[g].hasParser then calls > 0 && err == reply(calls - 1, ForOption).err else err == BadKey
      ensures if err == Ok then Tracks() else Ended(err)
    {
      assert before.argv[before.next..] == argv[before.next..];
      assert before.argv[before.next + n..] == argv[next..];
      assert before.argv[before.next..before.next + n] == argv[before.next..next];
      LookingTakes(config, prefix, whole, before, n, nextchar, [OptionDelivery(g, option, value)]);
      var after := before.(next := next, letters := nextchar, log := before.log + [OptionDelivery(g, option, value)]);
      LogIsPrefix(config, prefix, whole, before);
      LogIsPrefix(config, prefix, whole, after);
      if config.groups[g].hasParser {
        assert after == Now();
      }
    }

    /** What has been found at the current place: `before` scans to the option taken, or to the fault. */
    ghost predicate Found(before: Position, t: Taking)
      reads this, argv
      requires 0 <= before.next <= argv.Length && 0 <= next <= argv.Length
    {
      var ahead := ScanRest(config, before.letters, argv[before.next..]);
      match t
      case Fault(d) => ahead == Malformed(d)
      case Take(g, option, value) =>
        && before.next <= next && g < |config.groups|
        && ahead == ScanRest(config, nextchar, argv[next..])
                    .Prepend([OptionDelivery(g, option, value)], argv[before.next..next])
    }

    /** Reads the next letter of a group of short options, and the value that belongs to it. */
    method TakeLetter() returns (t: Taking)
      requires nextchar != "" && 0 <= next <= argv.Length
      modifies this`next, this`nextchar
      ensures old(next) <= next <= argv.Length && |nextchar| < old(|nextchar|)
      ensures Found(old(Now()), t)
    {
      ghost var rest := argv[next..];
      var c := nextchar[0];
      nextchar := nextchar[1..];
      if c as int > 127 {
        return Fault(NotAscii);
      }
      var found := FindShortOption(config.groups, c as int);
      if found.None? {
        return Fault(InvalidLetter);
      }
      ShortOptionOwner(config.groups, c as int);
      var Located(g, option) := found.value;
      var value: Option<string> := None;
      if option.takesArg {
        value := if nextchar == "" then None else Some(nextchar);
        nextchar := "";
        if value.None? && !option.argOptional {
          if next == argv.Length {
            return Fault(MissingValue);
          }
          value := Some(argv[next]);
          next := next + 1;
          assert rest[1..] == argv[next..];
        }
      }
      return Take(g, option, value);
    }

    /** Hands a taken option to its user parser, or reports the fault. */
    method Conclude(t: Taking, ghost before: Position) returns (err: Err)
      requires Valid() && next <= argv.Length && !argsOnly && lastNonopt <= before.next <= next
      requires before == Now().(next := before.next, letters := before.letters)
      requires Found(before, t)
      modifies this`next, this`calls, this`log, this`argEbadkey, this`diagnostic
      ensures err == Ok ==> Valid() && next <= argv.Length
      ensures && old(quoted == 0 && diagnostic.None?) && Looking(config, prefix, whole, before)
              && Cooperative(config, reply)
              ==> if err == Ok then Tracks() && next == old(next) else Ended(err)
      ensures NumOperands(log) == NumOperands(old(log))
    {
      match t
      case Fault(d) =>
        err := ReportFault(d, before);
      case Take(g, option, value) =>
        err := DeliverOption(g, option, value);
        if old(quoted == 0 && diagnostic.None?) && Looking(config, prefix, whole, before)
          && Cooperative(config, reply) {
          OptionTracked(before, next - before.next, g, option, value, err);
        }
    }

    /** Ends the run at a malformed option. */
    method ReportFault(d: Diagnostic, ghost before: Position) returns (err: Err)
      requires 0 <= before.next <= argv.Length && 0 <= next <= argv.Length && Found(before, Fault(d))
      requires before == Now().(next := before.next, letters := before.letters)
      modifies this`argEbadkey, this`diagnostic
      ensures err != Ok
      ensures old(diagnostic.None?) && Looking(config, prefix, whole, before) ==> Ended(err)
      ensures log == old(log)
    {
      if Looking(config, prefix, whole, before) {
        LookingFaults(config, prefix, whole, before, d);
      }
      if d == NotAscii {
        return Aborted;
      }
      argEbadkey := false;
      diagnostic := Some(d);
      return BadKey;
    }

    /** The next letter of a group of short options. */
    method ParseLetter() returns (err: Err)
      requires Valid() && nextchar != "" && lastNonopt <= next
      modifies this
      ensures err == Ok ==> Valid() && next <= argv.Length
      ensures old(Tracks()) && Cooperative(config, reply)
              ==> if err == Ok then Tracks() && Below(Rank(), old(Rank())) else Ended(err)
      ensures NumOperands(log) == NumOperands(old(log))
    {
      ghost var before := Now();
      var t := TakeLetter();
      err := Conclude(t, before);
    }

    /** A long option, with the value after its '=' or in the next element. `text` is the part after the dashes. */
    method TakeLong(text: string) returns (t: Taking)
      requires nextchar == "" && 0 <= next < argv.Length
      requires ClassifyArg(config.longOnly, config.shortOpts, argv[next]) in {ArgLong(text), ArgLongOnly(text)}
      modifies this`next
      ensures old(next) < next <= argv.Length && Found(old(Now()), t)
    {
      ghost var args := argv[next..];
      assert ScanRest(config, nextchar, args) == ScanLong(config, text, args);
      next := next + 1;
      assert args[1..] == argv[next..] && args[..1] == argv[old(next)..next];
      var found := FindLongOption(config.groups, text);
      if found.None? {
        return Fault(UnrecognizedOption);
      }
      LongOptionOwner(config.groups, text);
      var Located(g, option) := found.value;
      var value := InlineValue(text);
      if value.Some? && !option.takesArg {
        return Fault(UnexpectedValue);
      }
      if option.takesArg && value.None? && !option.argOptional {
        if next == argv.Length {
          return Fault(MissingValue);
        }
        value := Some(argv[next]);
        next := next + 1;
        assert args[2..] == argv[next..] && args[..2] == argv[old(next)..next];
      }
      return Take(g, option, value);
    }

    method ParseLong(text: string) returns (err: Err)
      requires Valid() && nextchar == "" && lastNonopt <= next < argv.Length && !argsOnly
      requires ClassifyArg(config.longOnly, config.shortOpts, argv[next]) in {ArgLong(text), ArgLongOnly(text)}
      modifies this
      ensures err == Ok ==> Valid() && next <= argv.Length
      ensures old(Tracks()) && Cooperative(config, reply)
              ==> if err == Ok then Tracks() && Below(Rank(), old(Rank())) else Ended(err)
      ensures NumOperands(log) == NumOperands(old(log))
    {
      ghost var before := Now();
      argEbadkey := false;
      var t := TakeLong(text);
      err := Conclude(t, before);
    }

    /** A group of short options starts here: its letters are taken one call at a time. */
    method StartLetters(letters: string)
      requires Valid() && nextchar == "" && lastNonopt <= next < argv.Length && !argsOnly
      requires ClassifyArg(config.longOnly, config.shortOpts, argv[next]) == ArgShort(letters)
      modifies this`next, this`nextchar
      ensures Valid() && next <= argv.Length
      ensures old(Tracks()) ==> Tracks() && Below(Rank(), old(Rank()))
    {
      next := next + 1;
      nextchar := letters;
      if old(Tracks()) {
        var before := old(Now());
        LettersTaken(config, prefix, whole, before, letters);
        assert Now() == before.(next := before.next + 1, letters := letters);
      }
    }

    /** An exchange in the middle of a run keeps the run on its way. */
    method ExchangeSkipped()
      requires Valid() && lastNonopt <= next < argv.Length && !argsOnly
      modifies this`firstNonopt, this`lastNonopt, argv
      ensures 0 <= firstNonopt <= lastNonopt == next && multiset(argv[..]) == old(multiset(argv[..]))
      ensures argv[next..] == old(argv[next..])
      ensures old(Tracks()) ==> Tracks()
    {
      ghost var before := Now();
      Exchange();
      ghost var after := Now();
      MovedBehindKeepsRest(before.argv, after.argv, before.first, before.last, before.next);
      if old(Tracks()) {
        LookingRotated(config, prefix, whole, before, after);
      }
    }

    /** Brings the skipped operands right before `next`, or starts a new segment of them there. */
    method GatherSkipped()
      requires Valid() && lastNonopt <= next < argv.Length && !argsOnly
      modifies this`firstNonopt, this`lastNonopt, argv
      ensures 0 <= firstNonopt <= lastNonopt == next && multiset(argv[..]) == old(multiset(argv[..]))
      ensures argv[next..] == old(argv[next..])
      ensures old(Tracks()) ==> Tracks()
    {
      if firstNonopt == lastNonopt {
        ghost var before := Now();
        firstNonopt := next;
        lastNonopt := next;
        if old(Tracks()) {
          LookingRestarted(config, prefix, whole, before);
        }
      } else if lastNonopt != next {
        ExchangeSkipped();
      }
    }

    /** A non-option in Permute mode: skipped for now, behind those skipped before. */
    method SkipOperand()
      requires Valid() && nextchar == "" && lastNonopt <= next < argv.Length && !argsOnly
      requires config.ordering == Permute
      requires ClassifyArg(config.longOnly, config.shortOpts, argv[next]).ArgArg?
      modifies this`next, this`firstNonopt, this`lastNonopt, argv
      ensures next <= argv.Length
      ensures Valid() && multiset(argv[..]) == old(multiset(argv[..]))
      ensures old(Tracks()) ==> Tracks() && Below(Rank(), old(Rank()))
    {
      GatherSkipped();
      assert lastNonopt == next;
      assert argv[next] == argv[next..][0] == old(argv[next..][0]);
      if old(Tracks()) {
        LookingSkips(config, prefix, whole, Now());
      }
      next := next + 1;
      lastNonopt := next;
    }

    /** Moves the skipped operands, if any, behind all that was seen since, and returns to the first of them:
        from there on everything is an operand. */
    method HandOver(quote: bool, ghost before: seq<string>)
      requires argv[..] == before
      requires 0 <= firstNonopt <= lastNonopt <= next <= argv.Length
      modifies this`next, this`firstNonopt, this`lastNonopt, this`quoted, this`argsOnly, argv
      ensures 0 <= next <= argv.Length && next == old(firstNonopt) + (old(next) - old(lastNonopt))
      ensures 0 <= firstNonopt == lastNonopt <= next
      ensures argsOnly && quoted == if quote then next else old(quoted)
      ensures MovedBehind(before, argv[..], old(firstNonopt), old(lastNonopt), old(next))
      ensures multiset(argv[..]) == multiset(before)
    {
      ghost var after := before;
      if firstNonopt != lastNonopt {
        Exchange();
        after := argv[..];
        next := firstNonopt;
        firstNonopt, lastNonopt := 0, 0;
      } else {
        NothingToMove(before, firstNonopt, next);
      }
      if quote {
        quoted := next;
      }
      argsOnly := true;
      assert argv[..] == after;
    }

    /** A non-option in RequireOrder mode: an implicit quote before it. */
    method RequireOrderEnds()
      requires Valid() && nextchar == "" && lastNonopt <= next < argv.Length && !argsOnly
      requires config.ordering == RequireOrder
      requires ClassifyArg(config.longOnly, config.shortOpts, argv[next]).ArgArg?
      modifies this`argsOnly
      ensures Valid() && argv[..] == old(argv[..])
      ensures old(Tracks()) ==> Tracks() && Below(Rank(), old(Rank()))
    {
      ghost var before := Now();
      argsOnly := true;
      assert argv[..] == before.argv;
      if old(Tracks()) {
        NothingToMove(before.argv, before.first, before.next);
        LookingEnds(config, prefix, whole, before, before.argv, before.next);
      }
    }

    /** `--`: moves the skipped operands behind it and goes on to handing them out with those that follow. */
    method ParseQuote()
      requires Valid() && nextchar == "" && lastNonopt <= next < argv.Length && !argsOnly
      requires ClassifyArg(config.longOnly, config.shortOpts, argv[next]).ArgQuote?
      modifies this`next, this`firstNonopt, this`lastNonopt, this`quoted, this`argsOnly, argv
      ensures next <= argv.Length
      ensures Valid() && multiset(argv[..]) == old(multiset(argv[..]))
      ensures old(Tracks()) ==> Tracks() && Below(Rank(), old(Rank()))
    {
      ghost var before := Now();
      next := next + 1;
      assert lastNonopt != next;
      QuoteOver(before);
    }

    /** The rest of it, behind the `--`. */
    method QuoteOver(ghost before: Position)
      requires before.argv == argv[..] && before.first == firstNonopt && before.last == lastNonopt && before.log == log
      requires before.letters == nextchar == "" && 0 <= before.next && next == before.next + 1 <= argv.Length
      requires 0 <= firstNonopt <= lastNonopt <= next && argsProcessed.Length == |config.groups|
      requires WithinArgv(reply, argv.Length)
      requires ClassifyArg(config.longOnly, config.shortOpts, before.argv[before.next]).ArgQuote?
      modifies this`next, this`firstNonopt, this`lastNonopt, this`quoted, this`argsOnly, argv
      ensures Valid() && argsOnly && next <= argv.Length && multiset(argv[..]) == multiset(before.argv)
      ensures Looking(config, prefix, whole, before) && diagnostic.None? ==> Tracks()
    {
      ghost var behind := next;
      HandOver(true, before.argv);
      if Looking(config, prefix, whole, before) && diagnostic.None? {
        QuoteTracked(before, behind);
      }
    }

    /** After `--` the run hands out operands. */
    lemma QuoteTracked(before: Position, behind: int)
      requires Looking(config, prefix, whole, before) && before.letters == "" && before.next < |before.argv|
      requires ClassifyArg(config.longOnly, config.shortOpts, before.argv[before.next]).ArgQuote?
      requires MovedBehind(before.argv, argv[..], before.first, before.last, behind) && behind == before.next + 1
      requires next == before.first + (behind - before.last) && next <= argv.Length
      requires argsOnly && quoted == next && diagnostic.None? && log == before.log
      ensures Tracks()
    {
      QuoteEnds(config, prefix, whole, before, behind, argv[..], next);
    }

    /** The end of argv while operands were skipped: moves them to the end and goes on to handing them out. */
    method FinishSkipped()
      requires Valid() && nextchar == "" && lastNonopt <= next == argv.Length && !argsOnly
      requires firstNonopt != lastNonopt
      modifies this`next, this`firstNonopt, this`lastNonopt, this`quoted, this`argsOnly, argv
      ensures next <= argv.Length
      ensures Valid() && multiset(argv[..]) == old(multiset(argv[..]))
      ensures old(Tracks()) ==> Tracks() && Below(Rank(), old(Rank()))
    {
      ghost var before := Now();
      HandOver(false, before.argv);
      if old(Tracks()) {
        assert before.argv[before.next..] == [];
        LookingEnds(config, prefix, whole, before, argv[..], next);
      }
    }

    /** What parser_parse_arg makes of a run on its way. */
    lemma OperandTracked(before: Position, handing: bool, err: Err, from: nat, offered: Offered)
      requires Cooperative(config, reply) && diagnostic.None? && argEbadkey && err != Aborted
      requires before == Now().(next := before.next, log := before.log)
      requires before.letters == "" && 0 <= before.next < |before.argv|
      requires lastNonopt <= before.next && quoted <= before.next
      requires if handing then Handing(prefix, whole, before.argv, before.next, before.log)
               else Looking(config, prefix, whole, before) && config.ordering == ReturnInOrder && quoted == 0
                    && ClassifyArg(config.longOnly, config.shortOpts, before.argv[before.next]).ArgArg?
      requires offered == Offer(config.groups, reply, 0, from, before.next)
      requires err == offered.err && calls == offered.calls
      requires next == if err == Ok && offered.forArgs then argv.Length else offered.next
      requires log == if err == Ok then before.log + Deliveries(Taken(argv[..], before.next, next)) else before.log
      requires argsOnly == (handing && !(err == Ok && next <= before.next))
      ensures if err == Ok then Tracks() && before.next < next else Ended(err)
    {
      OfferWithoutMoves(config.groups, reply, 0, from, before.next);
      LogIsPrefix(config, prefix, whole, before);
      if err == Ok {
        if handing {
          HandingTakes(prefix, whole, before.argv, before.next, before.log, next);
        } else {
          var taken := before.argv[before.next..before.next + 1];
          OperandTaken(config, prefix, whole, before);
          assert Now() == before.(next := next, letters := "", log := before.log + Deliveries(taken));
        }
      }
    }

    /** The operand at `next` goes to the user parsers. */
    method HandOperand() returns (err: Err)
      requires Valid() && nextchar == "" && lastNonopt <= next < argv.Length
      requires !argsOnly ==> config.ordering == ReturnInOrder
                             && ClassifyArg(config.longOnly, config.shortOpts, argv[next]).ArgArg?
      modifies this, argsProcessed
      ensures err == Ok ==> Valid()
      ensures old(Tracks()) && Cooperative(config, reply)
              ==> if err == Ok then Tracks() && Below(Rank(), old(Rank())) else Ended(err)
      ensures Surplus() == old(Surplus()) + if err == Ok && next > argv.Length then 1 else 0
    {
      ghost var before := Now();
      ghost var handing, from := argsOnly, calls;
      argEbadkey := true;
      err := ParseArg();
      if old(Tracks()) && Cooperative(config, reply) {
        assert argv[..] == before.argv;
        OperandTracked(before, handing, err, from, Offer(config.groups, reply, 0, from, before.next));
      }
    }

    /** The end of argv, with no operand skipped. */
    lemma EndTracked()
      requires Tracks() && argEbadkey && nextchar == "" && next == argv.Length
      requires !argsOnly ==> firstNonopt == lastNonopt
      ensures Ended(BadKey)
    {
      if !argsOnly {
        var p := Now();
        assert p.argv[p.next..] == [];
        NothingToMove(p.argv, p.first, p.next);
        LookingEnds(config, prefix, whole, p, p.argv, p.next);
      }
    }

    /** Undoes a quote that `next` was moved back over, and keeps the skipped segment before `next`. */
    method Normalize()
      requires Valid()
      modifies this`quoted, this`argsOnly, this`firstNonopt, this`lastNonopt
      ensures Valid() && lastNonopt <= next && (quoted == 0 || quoted <= next)
      ensures argsOnly == (old(argsOnly) && !(old(quoted) != 0 && next < old(quoted)))
      ensures old(Tracks()) ==> Tracks() && Rank() == old(Rank())
    {
      ghost var before := argv[..];
      if quoted != 0 && next < quoted {
        quoted := 0;
        argsOnly := false;
      }
      if lastNonopt > next {
        lastNonopt := next;
      }
      if firstNonopt > next {
        firstNonopt := next;
      }
      assert argv[..] == before;
    }

    /** Looks for an option at `next`: the switch of parser_parse_next. */
    method LookForOption() returns (err: Err)
      requires Valid() && nextchar == "" && lastNonopt <= next < argv.Length && !argsOnly
      modifies this, argv, argsProcessed
      ensures err == Ok ==> Valid()
      ensures multiset(argv[..]) == old(multiset(argv[..]))
      ensures old(Tracks()) && Cooperative(config, reply)
              ==> if err == Ok then Tracks() && Below(Rank(), old(Rank())) else Ended(err)
      ensures Surplus() == old(Surplus()) + if err == Ok && next > argv.Length then 1 else 0
    {
      ghost var before := argv[..];
      match ClassifyArg(config.longOnly, config.shortOpts, argv[next])
      case ArgArg =>
        match config.ordering {
          case Permute =>
            SkipOperand();
            return Ok;
          case RequireOrder =>
            RequireOrderEnds();
            return Ok;
          case ReturnInOrder =>
            err := HandOperand();
            assert argv[..] == before;
        }
      case ArgQuote =>
        ParseQuote();
        return Ok;
      case ArgLong(text) =>
        err := ParseLong(text);
        assert argv[..] == before;
      case ArgLongOnly(text) =>
        err := ParseLong(text);
        assert argv[..] == before;
      case ArgShort(letters) =>
        StartLetters(letters);
        assert argv[..] == before;
        return Ok;
    }

    /** One step while nothing but operands is left. */
    method HandNext() returns (err: Err)
      requires Valid() && nextchar == "" && lastNonopt <= next && argsOnly
      modifies this, argsProcessed
      ensures err == Ok ==> Valid() && old(next) < argv.Length
      ensures old(Tracks()) && Cooperative(config, reply)
              ==> if err == Ok then Tracks() && Below(Rank(), old(Rank())) else Ended(err)
      ensures Surplus() == old(Surplus()) + if err == Ok && next > argv.Length then 1 else 0
    {
      if next >= argv.Length {
        argEbadkey := true;
        if old(Tracks()) {
          EndTracked();
        }
        return BadKey;
      }
      err := HandOperand();
    }

    /** One step at the end of argv, while options are looked for. */
    method FinishArgv() returns (err: Err)
      requires Valid() && nextchar == "" && lastNonopt <= next && next >= argv.Length && !argsOnly
      modifies this, argv
      ensures err == Ok ==> Valid() && next <= argv.Length == old(next)
      ensures multiset(argv[..]) == old(multiset(argv[..]))
      ensures old(Tracks()) && Cooperative(config, reply)
              ==> if err == Ok then Tracks() && Below(Rank(), old(Rank())) else Ended(err)
      ensures log == old(log)
    {
      ghost var before := argv[..];
      argEbadkey := true;
      assert argv[..] == before;
      if firstNonopt == lastNonopt {
        if old(Tracks()) {
          EndTracked();
        }
        return BadKey;
      }
      FinishSkipped();
      return Ok;
    }

    /** parser_parse_next: one step of the parser. */
    method ParseNext() returns (err: Err)
      requires Valid()
      modifies this, argv, argsProcessed
      ensures err == Ok ==> Valid()
      ensures multiset(argv[..]) == old(multiset(argv[..]))
      ensures old(Tracks()) && Cooperative(config, reply)
              ==> if err == Ok then Tracks() && Below(Rank(), old(Rank())) else Ended(err)
      ensures err == Ok && old(Counted()) ==> Counted()
      ensures err != Ok ==> Surplus() == old(Surplus())
    {
      ghost var before := argv[..];
      Normalize();
      assert argv[..] == before;
      if nextchar != "" {
        err := ParseLetter();
        assert argv[..] == before;
      } else if argsOnly {
        err := HandNext();
        assert argv[..] == before;
      } else if next >= argv.Length {
        err := FinishArgv();
      } else {
        err := LookForOption();
      }
    }

    /** The loop of __argp_parse with user parsers that do not interfere: it terminates, and ends as the two-pass
        scan says. */
    method Parse() returns (err: Err)
      requires Valid() && Tracks() && Cooperative(config, reply)
      modifies this, argv, argsProcessed
      ensures err != Ok && Ended(err)
      ensures multiset(argv[..]) == old(multiset(argv[..]))
      ensures old(Counted()) ==> Accounted()
    {
      err := Ok;
      while err == Ok
        invariant err == Ok ==> Valid() && Tracks()
        invariant old(Counted()) ==> if err == Ok then Counted() else Accounted()
        invariant err != Ok ==> Ended(err)
        invariant multiset(argv[..]) == old(multiset(argv[..]))
        decreases err == Ok, Rank().0, Rank().1, Rank().2
      {
        err := ParseNext();
      }
    }

    /** Any number of steps with any user parsers at all: no assertion fails, every access to argv is in bounds,
        and argv stays a permutation of what it was. */
    method ParseSteps(steps: nat) returns (err: Err)
      requires Valid()
      modifies this, argv, argsProcessed
      ensures err == Ok ==> Valid()
      ensures multiset(argv[..]) == old(multiset(argv[..]))
      ensures old(Counted()) ==> Accounted() && (err == Ok ==> Counted())
    {
      err := Ok;
      var n := 0;
      while n < steps && err == Ok
        invariant err == Ok ==> Valid()
        invariant old(Counted()) ==> if err == Ok then Counted() else Accounted()
        invariant multiset(argv[..]) == old(multiset(argv[..]))
      {
        err := ParseNext();
        n := n + 1;
      }
    }

    /** When every user parser takes what it is given, a run ends with everything delivered and argv in its final
        order, or at the first malformed option with all before it delivered. */
    lemma AcceptingRunIsComplete(err: Err)
      requires err != Ok && Ended(err) && Accepting(config, reply)
      ensures match whole.fault
              case None =>
                && err == BadKey && argEbadkey && diagnostic.None? && next == argv.Length
                && log == whole.options + Deliveries(whole.operands)
                && argv[..] == prefix + whole.elements + whole.operands
              case Some(d) => Faulted(err)
    {
      forall from: nat | calls == from + 2 * NumParsers(config.groups, 0)
        ensures !Refusals(reply, from, calls)
      {
        assert config.groups[0].hasParser;
        assert reply(from, KindAt(from, from)).err != BadKey;
      }
      if Stopped(err) {
        PermutedIsConcatenation(prefix, whole, argv[..]);
        assert argv[|prefix| + |whole.elements|..next] == whole.operands;
      }
    }
  }

  /** What a look at argv yields: an option with its group and value, or a fault. */
  datatype Taking = Take(group: nat, option: ArgpOption, value: Option<string>) | Fault(diagnostic: Diagnostic)

  /** The elements of argv that a user parser has consumed by leaving `next` at the given place. */
  function Taken(argv: seq<string>, index: nat, next: int): seq<string>
    requires index <= |argv|
  {
    if next <= index then [] else if next <= |argv| then argv[index..next] else argv[index..]
  }

  ghost predicate Below(a: (int, int, int), b: (int, int, int)) {
    a.0 < b.0 || (a.0 == b.0 && (a.1 < b.1 || (a.1 == b.1 && a.2 < b.2)))
  }

  function Total(s: seq<int>): int {
    if s == [] then 0 else Total(s[..|s| - 1]) + s[|s| - 1]
  }

  function NumOperands(log: seq<Delivery>): nat {
    if log == [] then 0 else NumOperands(log[..|log| - 1]) + if log[|log| - 1].OperandDelivery? then 1 else 0
  }

  lemma {:induction false} TotalOfCredited(s: seq<int>, group: nat, n: int)
    requires group < |s| && 0 < n
    ensures Total(Credited(s, group, n)) == Total(s) + n
  {
    var t := Credited(s, group, n);
    if group == |s| - 1 {
      assert t[..|t| - 1] == s[..|s| - 1];
    } else {
      TotalOfCredited(s[..|s| - 1], group, n);
      assert t[..|t| - 1] == Credited(s[..|s| - 1], group, n);
    }
  }

  lemma {:induction false} NumOperandsOfMore(log: seq<Delivery>, operands: seq<string>)
    ensures NumOperands(log + Deliveries(operands)) == NumOperands(log) + |operands|
    decreases |operands|
  {
    if operands == [] {
      assert log + Deliveries(operands) == log;
    } else {
      var init := operands[..|operands| - 1];
      NumOperandsOfMore(log, init);
      assert (log + Deliveries(operands))[..|log| + |init|] == log + Deliveries(init);
    }
  }

  /** Crediting a group changes the account by as much as the credit exceeds the operands delivered. */
  lemma CreditCounts(s: seq<int>, log: seq<Delivery>, group: nat, n: int, taken: seq<string>)
    requires group < |s|
    ensures Total(Credited(s, group, n)) - NumOperands(log + Deliveries(taken))
            == Total(s) - NumOperands(log) + (if 0 < n then n else 0) - |taken|
  {
    NumOperandsOfMore(log, taken);
    if 0 < n {
      TotalOfCredited(s, group, n);
    }
  }

  lemma NumOperandsOfOption(log: seq<Delivery>, d: Delivery)
    requires d.OptionDelivery?
    ensures NumOperands(log + [d]) == NumOperands(log)
  {
    assert (log + [d])[..|log|] == log;
  }

  function Credited(processed: seq<int>, group: nat, n: int): seq<int> {
    if 0 < n && group < |processed| then processed[group := processed[group] + n] else processed
  }

  /** argp_parse on a fresh parser: the end of the run in terms of the argv it was given. */
  method ArgpParse(config: Config, reply: Replies, argv: array<string>, parseArgv0: bool)
    returns (parser: Parser, err: Err)
    requires Accepting(config, reply)
    modifies argv
    ensures var start := if argv.Length > 0 && !parseArgv0 then 1 else 0;
            var whole := Scan(config, old(argv[start..]));
            && parser.argv == argv && err != Ok
            && match whole.fault
               case None =>
                 && argv[..] == old(argv[..start]) + whole.elements + whole.operands
                 && parser.log == whole.options + Deliveries(whole.operands)
                 && parser.next == argv.Length && parser.diagnostic.None?
               case Some(d) =>
                 && multiset(argv[..]) == old(multiset(argv[..]))
                 && parser.log == whole.options
                 && (d == NotAscii <==> err == Aborted) && (d != NotAscii ==> parser.diagnostic == Some(d))
  {
    forall n: nat, kind
      ensures reply(n, kind).err != Aborted && reply(n, kind).move.None?
    {
      match kind
      case ForOption =>
      case ForArg =>
      case ForArgs =>
    }
    parser := new Parser(config, reply, argv, parseArgv0);
    err := parser.Parse();
    parser.AcceptingRunIsComplete(err);
  }
}
