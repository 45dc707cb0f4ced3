/**
 What the argument parser of argp-parse.c has reached, as values: the answers of the user parsers, the offering of
 an operand to them, and the position of a run in relation to the two-pass meaning of argv.

 The user parsers are modelled by `reply`: the answer to the n-th call, for any function at all. An answer is an
 error code and, possibly, a new value for `state.next`. Every behaviour of every user parser over a run is
 some such function, so what is proved for all of them is proved for all user parsers.
 */
module ArgpState {
  import opened Optional
  import opened ArgpModel
  import opened ArgpLookup
  import opened ArgpTwoPass
  import opened ArgpExchange
  import opened Slices

  /** error_t: zero, EBADKEY, any other code of a user parser, or the abort of a failed assertion. */
  datatype Err = Ok | BadKey | UserError(code: int) | Aborted

  /** Which key a user parser is called with: an option's, ARGP_KEY_ARG or ARGP_KEY_ARGS. */
  datatype CallKind = ForOption | ForArg | ForArgs

  datatype Reply = Reply(err: Err, move: Option<nat>)

  type Replies = (nat, CallKind) -> Reply

  /** What a call of one group's parser leaves behind: group_parse. A group without a parser is never called. */
  datatype Called = Called(err: Err, calls: nat, next: int)

  function GroupParse(group: Group, reply: Replies, kind: CallKind, calls: nat, next: int): Called {
    if group.hasParser then
      var r := reply(calls, kind);
      Called(r.err, calls + 1, if r.move.Some? then r.move.value else next)
    else Called(BadKey, calls, next)
  }

  /** What offering one operand to the groups from g on leaves behind; `group` is the one that ended the search. */
  datatype Offered = Offered(err: Err, forArgs: bool, group: nat, calls: nat, next: int)

  function Offer(groups: seq<Group>, reply: Replies, g: nat, calls: nat, next: int): Offered
    requires g <= |groups|
    decreases |groups| - g
  {
    if g == |groups| then Offered(BadKey, true, g, calls, next)
    else
      var one := GroupParse(groups[g], reply, ForArg, calls, next + 1);
      if one.err != BadKey then Offered(one.err, false, g, one.calls, one.next)
      else
        var all := GroupParse(groups[g], reply, ForArgs, one.calls, one.next - 1);
        if all.err != BadKey then Offered(all.err, true, g, all.calls, all.next)
        else Offer(groups, reply, g + 1, all.calls, all.next)
  }

  /** User parsers may move `next` anywhere within argv; they cannot fail the parser's assertions. */
  ghost predicate WithinArgv(reply: Replies, argc: nat) {
    forall n: nat, kind :: reply(n, kind).err != Aborted
                           && (reply(n, kind).move.Some? ==> reply(n, kind).move.value <= argc)
  }

  /** A user parser that refuses a call leaves `next` alone. */
  ghost predicate TidyRefusals(reply: Replies) {
    forall n: nat, kind :: reply(n, kind).err == BadKey ==> reply(n, kind).move.None?
  }

  /** A user parser that refuses ARGP_KEY_ARGS does not leave `next` at the very end of argv. */
  ghost predicate KeepsOff(reply: Replies, argc: nat) {
    forall n: nat :: reply(n, ForArgs).err == BadKey ==> reply(n, ForArgs).move != Some(argc)
  }

  /** User parsers that leave `next` to the library. */
  ghost predicate NeverMoves(reply: Replies) {
    forall n: nat, kind :: reply(n, kind).move.None?
  }

  /** Whoever answers, `next` is within argv afterwards, or one past argc; with user parsers that keep off the end, it
      is within argv. */
  lemma {:induction false} OfferBounds(groups: seq<Group>, reply: Replies, g: nat, calls: nat, next: int, argc: nat)
    requires g <= |groups| && WithinArgv(reply, argc) && -1 <= next <= argc
    ensures var r := Offer(groups, reply, g, calls, next);
            && r.err != Aborted
            && (r.err == BadKey ==> r.group == |groups| && -1 <= r.next <= argc)
            && (r.err != BadKey ==> g <= r.group < |groups| && groups[r.group].hasParser)
            && (r.err == Ok && !r.forArgs ==> 0 <= r.next <= argc + 1)
            && (r.err == Ok && !r.forArgs && KeepsOff(reply, argc) && next < argc ==> r.next <= argc)
    decreases |groups| - g
  {
    if g < |groups| {
      var one := GroupParse(groups[g], reply, ForArg, calls, next + 1);
      if one.err == BadKey {
        var all := GroupParse(groups[g], reply, ForArgs, one.calls, one.next - 1);
        if all.err == BadKey {
          OfferBounds(groups, reply, g + 1, all.calls, all.next, argc);
        }
      }
    }
  }

  /** Refused by user parsers that leave `next` alone when they refuse, an operand leaves `next` where it was. */
  lemma {:induction false} TidyRefusalLeavesNext(groups: seq<Group>, reply: Replies, g: nat, calls: nat, next: int)
    requires g <= |groups| && TidyRefusals(reply)
    ensures var r := Offer(groups, reply, g, calls, next); r.err == BadKey ==> r.next == next
    decreases |groups| - g
  {
    if g < |groups| {
      var one := GroupParse(groups[g], reply, ForArg, calls, next + 1);
      if one.err == BadKey {
        var all := GroupParse(groups[g], reply, ForArgs, one.calls, one.next - 1);
        if all.err == BadKey {
          TidyRefusalLeavesNext(groups, reply, g + 1, all.calls, all.next);
        }
      }
    }
  }

  /** Call n leaves `next` alone; the kinds of the calls alternate from `from` on. */
  predicate Still(reply: Replies, from: nat, n: nat)
    requires from <= n
  {
    reply(n, KindAt(from, n)).move.None?
  }

  ghost predicate NoMoves(reply: Replies, from: nat, first: nat, to: nat)
    requires from <= first
  {
    forall n: nat :: first <= n < to ==> Still(reply, from, n)
  }

  /** Call n, with ARGP_KEY_ARGS, set `next` to the end of argv, and no later one moved it again. */
  ghost predicate EndsThere(reply: Replies, argc: nat, from: nat, n: nat, to: nat)
    requires from <= n
  {
    KindAt(from, n) == ForArgs && reply(n, ForArgs).move == Some(argc) && NoMoves(reply, from, n + 1, to)
  }

  ghost predicate LeftAtEnd(reply: Replies, argc: nat, from: nat, to: nat) {
    exists n: nat :: from <= n < to && EndsThere(reply, argc, from, n, to)
  }

  /** An operand that lies before the end of argv and is taken as ARGP_KEY_ARG brings `next` past the end exactly if a
      refusal of ARGP_KEY_ARGS left it at the end, and nothing moved it again, the acceptance included. */
  lemma OvershootIfAndOnlyIf(groups: seq<Group>, reply: Replies, calls: nat, next: int, argc: nat)
    requires WithinArgv(reply, argc) && -1 <= next < argc
    ensures var r := Offer(groups, reply, 0, calls, next);
            r.err == Ok && !r.forArgs ==> (r.next > argc <==> LeftAtEnd(reply, argc, calls, r.calls))
  {
    OvershootFrom(groups, reply, 0, calls, next, argc);
  }

  lemma {:induction false} OvershootFrom(groups: seq<Group>, reply: Replies, g: nat, calls: nat, next: int, argc: nat)
    requires g <= |groups| && WithinArgv(reply, argc) && -1 <= next <= argc
    ensures var r := Offer(groups, reply, g, calls, next);
            r.err == Ok && !r.forArgs ==>
              calls < r.calls && (r.next > argc <==> AtEnd(reply, argc, calls, r.calls, next))
    decreases |groups| - g
  {
    if g < |groups| {
      var one := GroupParse(groups[g], reply, ForArg, calls, next + 1);
      if one.err == BadKey {
        var all := GroupParse(groups[g], reply, ForArgs, one.calls, one.next - 1);
        if all.err == BadKey {
          OvershootFrom(groups, reply, g + 1, all.calls, all.next, argc);
          OvershootLater(groups[g], reply, calls, next, argc, Offer(groups, reply, g + 1, all.calls, all.next));
        }
      } else {
        OvershootHere(groups[g], reply, calls, next, argc);
      }
    }
  }

  /** A group that takes the operand at once. */
  lemma OvershootHere(group: Group, reply: Replies, calls: nat, next: int, argc: nat)
    requires WithinArgv(reply, argc) && -1 <= next <= argc
    requires GroupParse(group, reply, ForArg, calls, next + 1).err != BadKey
    ensures var one := GroupParse(group, reply, ForArg, calls, next + 1);
            one.err == Ok ==> calls < one.calls && (one.next > argc <==> AtEnd(reply, argc, calls, one.calls, next))
  {
    OneCall(reply, argc, calls);
  }

  /** A group that refuses the operand; r is what becomes of it afterwards. */
  lemma OvershootLater(group: Group, reply: Replies, calls: nat, next: int, argc: nat, r: Offered)
    requires WithinArgv(reply, argc) && -1 <= next <= argc
    requires var one := GroupParse(group, reply, ForArg, calls, next + 1);
             var all := GroupParse(group, reply, ForArgs, one.calls, one.next - 1);
             && one.err == BadKey && all.err == BadKey
             && (r.err == Ok && !r.forArgs ==>
                   all.calls < r.calls && (r.next > argc <==> AtEnd(reply, argc, all.calls, r.calls, all.next)))
    ensures r.err == Ok && !r.forArgs ==>
              calls < r.calls && (r.next > argc <==> AtEnd(reply, argc, calls, r.calls, next))
  {
    var one := GroupParse(group, reply, ForArg, calls, next + 1);
    if group.hasParser && r.err == Ok && !r.forArgs {
      TwoCallsBefore(reply, argc, calls, next, r.calls,
                     GroupParse(group, reply, ForArgs, one.calls, one.next - 1).next);
    }
  }

  /** `next` was at the end before these calls, and none moved it, or one of them left it there. */
  ghost predicate AtEnd(reply: Replies, argc: nat, from: nat, to: nat, next: int) {
    (next == argc && NoMoves(reply, from, from, to)) || LeftAtEnd(reply, argc, from, to)
  }

  /** In terms of the group that takes it: `next` goes past the end exactly if it was at the end when this group was
      offered the operand, and the answer does not move it. */
  lemma {:induction false} OvershootsFromEnd(
    groups: seq<Group>, reply: Replies, g: nat, calls: nat, next: int, argc: nat)
    requires g <= |groups| && WithinArgv(reply, argc) && -1 <= next <= argc
    ensures var r := Offer(groups, reply, g, calls, next);
            r.err == Ok && !r.forArgs ==>
              && 0 < r.calls
              && (r.next > argc
                  <==> OfferedAt(groups, reply, g, calls, next) == argc && reply(r.calls - 1, ForArg).move.None?)
    decreases |groups| - g
  {
    if g < |groups| {
      var one := GroupParse(groups[g], reply, ForArg, calls, next + 1);
      if one.err == BadKey {
        var all := GroupParse(groups[g], reply, ForArgs, one.calls, one.next - 1);
        if all.err == BadKey {
          OvershootsFromEnd(groups, reply, g + 1, all.calls, all.next, argc);
        }
      }
    }
  }

  /** The value of `next` when the group that ends the search is offered the operand. */
  function OfferedAt(groups: seq<Group>, reply: Replies, g: nat, calls: nat, next: int): int
    requires g <= |groups|
    decreases |groups| - g
  {
    if g == |groups| then next
    else
      var one := GroupParse(groups[g], reply, ForArg, calls, next + 1);
      if one.err != BadKey then next
      else
        var all := GroupParse(groups[g], reply, ForArgs, one.calls, one.next - 1);
        if all.err != BadKey then next else OfferedAt(groups, reply, g + 1, all.calls, all.next)
  }

  /** Where `next` is after two refusals decides, together with the later calls, whether it is left at the end. */
  lemma TwoCallsBefore(reply: Replies, argc: nat, calls: nat, next: int, to: nat, next': int)
    requires WithinArgv(reply, argc) && next <= argc && calls + 2 < to
    requires var first, second := reply(calls, ForArg).move, reply(calls + 1, ForArgs).move;
             next' == if second.Some? then second.value else if first.Some? then first.value - 1 else next
    ensures AtEnd(reply, argc, calls, to, next) <==> AtEnd(reply, argc, calls + 2, to, next')
  {
    assert KindAt(calls, calls) == ForArg && KindAt(calls, calls + 1) == ForArgs;
    var first, second := reply(calls, ForArg).move, reply(calls + 1, ForArgs).move;
    NoMovesShifted(reply, calls, calls + 2, to);
    LeftAtEndShifted(reply, argc, calls, to);
    assert Still(reply, calls, calls) <==> first.None?;
    assert Still(reply, calls, calls + 1) <==> second.None?;
    assert NoMoves(reply, calls, calls, to) <==> first.None? && second.None? && NoMoves(reply, calls, calls + 2, to);
    assert EndsThere(reply, argc, calls, calls + 1, to)
           <==> second == Some(argc) && NoMoves(reply, calls, calls + 2, to);
  }

  lemma OneCall(reply: Replies, argc: nat, calls: nat)
    ensures NoMoves(reply, calls, calls, calls + 1) <==> reply(calls, ForArg).move.None?
    ensures !LeftAtEnd(reply, argc, calls, calls + 1)
  {
    assert KindAt(calls, calls) == ForArg;
    assert Still(reply, calls, calls) <==> reply(calls, ForArg).move.None?;
    assert !EndsThere(reply, argc, calls, calls, calls + 1);
  }

  lemma SameKind(calls: nat, n: nat)
    requires calls + 2 <= n
    ensures KindAt(calls, n) == KindAt(calls + 2, n)
  {
    assert n - calls == (n - (calls + 2)) + 2;
  }

  lemma NoMovesShifted(reply: Replies, calls: nat, first: nat, to: nat)
    requires calls + 2 <= first
    ensures NoMoves(reply, calls, first, to) <==> NoMoves(reply, calls + 2, first, to)
  {
    var later := calls + 2;
    if NoMoves(reply, calls, first, to) {
      forall n: nat | first <= n < to
        ensures Still(reply, later, n)
      {
        SameKind(calls, n);
        assert Still(reply, calls, n);
      }
    }
    if NoMoves(reply, calls + 2, first, to) {
      forall n: nat | first <= n < to
        ensures Still(reply, calls, n)
      {
        SameKind(calls, n);
        assert Still(reply, later, n);
      }
    }
  }

  lemma LeftAtEndShifted(reply: Replies, argc: nat, calls: nat, to: nat)
    requires calls + 2 < to
    ensures LeftAtEnd(reply, argc, calls, to)
            <==> LeftAtEnd(reply, argc, calls + 2, to) || EndsThere(reply, argc, calls, calls + 1, to)
  {
    assert KindAt(calls, calls) == ForArg;
    if LeftAtEnd(reply, argc, calls + 2, to) {
      var n: nat :| calls + 2 <= n < to && EndsThere(reply, argc, calls + 2, n, to);
      EndsThereShifted(reply, argc, calls, n, to);
    }
    if LeftAtEnd(reply, argc, calls, to) {
      var n: nat :| calls <= n < to && EndsThere(reply, argc, calls, n, to);
      if n >= calls + 2 {
        EndsThereShifted(reply, argc, calls, n, to);
      } else {
        assert n == calls + 1;
      }
    }
  }

  lemma EndsThereShifted(reply: Replies, argc: nat, calls: nat, n: nat, to: nat)
    requires calls + 2 <= n
    ensures EndsThere(reply, argc, calls, n, to) <==> EndsThere(reply, argc, calls + 2, n, to)
  {
    SameKind(calls, n);
    NoMovesShifted(reply, calls, n + 1, to);
  }

  /** The bound is sharp: a parser that refuses ARGP_KEY_ARGS after moving `next` to the end of argv makes the next
      parser's acceptance count one element too many. */
  lemma AcceptanceCanOvershoot()
    ensures var groups := [Group([], true, None, 0, 0, 0), Group([], true, None, 0, 0, 0)];
            var reply := (n: nat, kind: CallKind) =>
              if n == 0 then Reply(BadKey, None) else if n == 1 then Reply(BadKey, Some(1)) else Reply(Ok, None);
            WithinArgv(reply, 1) && Offer(groups, reply, 0, 0, 0) == Offered(Ok, false, 1, 3, 2)
  {
    var groups := [Group([], true, None, 0, 0, 0), Group([], true, None, 0, 0, 0)];
    var reply := (n: nat, kind: CallKind) =>
      if n == 0 then Reply(BadKey, None) else if n == 1 then Reply(BadKey, Some(1)) else Reply(Ok, None);
    assert GroupParse(groups[0], reply, ForArg, 0, 1) == Called(BadKey, 1, 1);
    assert GroupParse(groups[0], reply, ForArgs, 1, 0) == Called(BadKey, 2, 1);
    assert GroupParse(groups[1], reply, ForArg, 2, 2) == Called(Ok, 3, 2);
    assert Offer(groups, reply, 1, 2, 1) == Offered(Ok, false, 1, 3, 2);
  }

  /** How many user parsers there are to offer an operand to. */
  function NumParsers(groups: seq<Group>, g: nat): nat
    requires g <= |groups|
    decreases |groups| - g
  {
    if g == |groups| then 0 else (if groups[g].hasParser then 1 else 0) + NumParsers(groups, g + 1)
  }

  /** An operand is offered to each parser first as ARGP_KEY_ARG, then as ARGP_KEY_ARGS. */
  function KindAt(from: nat, n: nat): CallKind
    requires from <= n
  {
    if (n - from) % 2 == 0 then ForArg else ForArgs
  }

  /** Every offer from call number `from` up to `to` is refused. */
  ghost predicate Refusals(reply: Replies, from: nat, to: nat) {
    forall n: nat :: from <= n < to ==> reply(n, KindAt(from, n)).err == BadKey
  }

  /** The parsers are offered an operand in the order of their groups, each as ARGP_KEY_ARG and, if it refuses that, as
      ARGP_KEY_ARGS, up to the first call that is not refused. */
  ghost predicate InOrder(groups: seq<Group>, reply: Replies, g: nat, calls: nat, r: Offered)
    requires g <= |groups|
  {
    if r.err == BadKey then r.calls == calls + 2 * NumParsers(groups, g) && Refusals(reply, calls, r.calls)
    else
      && calls < r.calls && Refusals(reply, calls, r.calls - 1)
      && r.err == reply(r.calls - 1, KindAt(calls, r.calls - 1)).err
      && (r.forArgs <==> KindAt(calls, r.calls - 1) == ForArgs)
      && g <= r.group < |groups| && groups[r.group].hasParser
      && r.calls == calls + 2 * (NumParsers(groups, g) - NumParsers(groups, r.group)) + if r.forArgs then 2 else 1
  }

  lemma {:induction false} OfferedInOrder(groups: seq<Group>, reply: Replies, g: nat, calls: nat, next: int)
    requires g <= |groups|
    ensures InOrder(groups, reply, g, calls, Offer(groups, reply, g, calls, next))
    decreases |groups| - g
  {
    if g < |groups| {
      var one := GroupParse(groups[g], reply, ForArg, calls, next + 1);
      if one.err == BadKey {
        var all := GroupParse(groups[g], reply, ForArgs, one.calls, one.next - 1);
        if all.err == BadKey {
          OfferedInOrder(groups, reply, g + 1, all.calls, all.next);
          LaterInOrder(groups, reply, g, calls, Offer(groups, reply, g + 1, all.calls, all.next));
        }
      }
    }
  }

  lemma LaterInOrder(groups: seq<Group>, reply: Replies, g: nat, calls: nat, r: Offered)
    requires g < |groups|
    requires groups[g].hasParser ==> reply(calls, ForArg).err == BadKey && reply(calls + 1, ForArgs).err == BadKey
    requires InOrder(groups, reply, g + 1, if groups[g].hasParser then calls + 2 else calls, r)
    ensures InOrder(groups, reply, g, calls, r)
  {
    RefusedBefore(reply, calls, if groups[g].hasParser then calls + 2 else calls,
                  if r.err == BadKey then r.calls else r.calls - 1);
  }

  lemma RefusedBefore(reply: Replies, calls: nat, later: nat, to: nat)
    requires later == calls || later == calls + 2
    requires later == calls + 2 ==> reply(calls, ForArg).err == BadKey && reply(calls + 1, ForArgs).err == BadKey
    requires Refusals(reply, later, to)
    ensures Refusals(reply, calls, to)
    ensures later <= to ==> KindAt(calls, to) == KindAt(later, to)
  {
    forall n: nat | calls <= n < to
      ensures reply(n, KindAt(calls, n)).err == BadKey
    {
      if later <= n {
        assert KindAt(calls, n) == KindAt(later, n);
      }
    }
  }

  /** Without moves: an accepted operand advances `next` by one, and a refused one was refused by every parser. */
  lemma {:induction false} OfferWithoutMoves(groups: seq<Group>, reply: Replies, g: nat, calls: nat, next: int)
    requires g <= |groups| && NeverMoves(reply)
    ensures var r := Offer(groups, reply, g, calls, next);
            && calls <= r.calls
            && (r.err != BadKey && !r.forArgs ==> r.next == next + 1)
            && (r.err != BadKey && r.forArgs ==> r.next == next)
            && (r.err != BadKey ==> 0 < r.calls
                                    && r.err == reply(r.calls - 1, if r.forArgs then ForArgs else ForArg).err)
            && (r.err == BadKey ==> r.calls == calls + 2 * NumParsers(groups, g) && Refusals(reply, calls, r.calls)
                                    && r.next == next)
    decreases |groups| - g
  {
    if g < |groups| {
      var one := GroupParse(groups[g], reply, ForArg, calls, next + 1);
      if one.err == BadKey {
        var all := GroupParse(groups[g], reply, ForArgs, one.calls, one.next - 1);
        if all.err == BadKey {
          OfferWithoutMoves(groups, reply, g + 1, all.calls, all.next);
          var r := Offer(groups, reply, g, calls, next);
          if r.err == BadKey {
            forall n: nat | calls <= n < r.calls
              ensures reply(n, KindAt(calls, n)).err == BadKey
            {
              if n >= all.calls {
                assert KindAt(calls, n) == KindAt(all.calls, n);
              }
            }
          }
        }
      }
    }
  }

  // ----- what a run has reached, as a value -----

  /** The parser's view of argv in the middle of a run. */
  datatype Position = Position(
    argv: seq<string>,
    first: int,
    last: int,
    next: int,
    letters: string,
    log: seq<Delivery>)
  {
    ghost predicate InBounds() {
      0 <= first <= last <= next <= |argv|
    }

    /** The elements of options already handled. */
    ghost function Done(): seq<string>
      requires InBounds()
    {
      argv[..first] + argv[last..next]
    }

    /** The operands skipped so far. */
    ghost function Skipped(): seq<string>
      requires InBounds()
    {
      argv[first..last]
    }
  }

  /** While looking for options: what was delivered, handled and skipped, together with what a scan from here
      would find, is what the scan of the original argv finds. */
  ghost predicate Looking(c: Config, prefix: seq<string>, whole: Outcome, p: Position) {
    && p.InBounds()
    && var ahead := ScanRest(c, p.letters, p.argv[p.next..]);
       && p.log + ahead.options == whole.options
       && ahead.fault == whole.fault
       && (whole.fault.None? ==> && p.Done() + ahead.elements == prefix + whole.elements
                                 && p.Skipped() + ahead.operands == whole.operands)
  }

  /** The element a complete run leaves at place i: option elements, values and `--` first, then the operands. */
  ghost function FinalAt(prefix: seq<string>, whole: Outcome, i: nat): string
    requires i < |prefix| + |whole.elements| + |whole.operands|
  {
    (prefix + whole.elements + whole.operands)[i]
  }

  ghost predicate Permuted(prefix: seq<string>, whole: Outcome, argv: seq<string>) {
    && |argv| == |prefix| + |whole.elements| + |whole.operands|
    && forall i {:trigger FinalAt(prefix, whole, i)} :: 0 <= i < |argv| ==> argv[i] == FinalAt(prefix, whole, i)
  }

  lemma PermutedIsConcatenation(prefix: seq<string>, whole: Outcome, argv: seq<string>)
    ensures Permuted(prefix, whole, argv) <==> argv == prefix + whole.elements + whole.operands
  {
    var goal := prefix + whole.elements + whole.operands;
    if Permuted(prefix, whole, argv) {
      forall i | 0 <= i < |argv|
        ensures argv[i] == goal[i]
      {
        assert argv[i] == FinalAt(prefix, whole, i);
      }
    }
  }

  /** While handing out operands: argv is in its final order, all options and the operands before `next` are out. */
  ghost predicate Handing(
    prefix: seq<string>, whole: Outcome, argv: seq<string>, next: int, log: seq<Delivery>)
  {
    && whole.fault.None?
    && Permuted(prefix, whole, argv)
    && |prefix| + |whole.elements| <= next <= |argv|
    && log == whole.options + Deliveries(argv[|prefix| + |whole.elements|..next])
  }

  /** r is a with the segment [first, last) moved behind the elements up to `next`. */
  ghost predicate MovedBehind(a: seq<string>, r: seq<string>, first: int, last: int, next: int) {
    && 0 <= first <= last <= next <= |a| == |r|
    && r[..first + (next - last)] == a[..first] + a[last..next]
    && r[first + (next - last)..] == a[first..last] + a[next..]
  }

  lemma RotationMovesBehind(a: seq<string>, first: nat, last: nat, next: nat)
    requires first <= last <= next <= |a|
    ensures MovedBehind(a, Rotated(a, first, last, next), first, last, next)
  {
    var r := Rotated(a, first, last, next);
    var A, B, C, D := a[..first], a[first..last], a[last..next], a[next..];
    var first' := first + (next - last);
    assert r == (A + C) + (B + D) && |A + C| == first';
    assert r[..first'] == A + C;
    assert r[first'..] == B + D;
  }

  lemma NothingToMove(a: seq<string>, first: nat, next: nat)
    requires first <= next <= |a|
    ensures MovedBehind(a, a, first, first, next)
  {
    assert a[..next] == a[..first] + a[first..next];
    assert a[next..] == a[first..first] + a[next..];
  }

  lemma MovedBehindKeepsRest(a: seq<string>, r: seq<string>, first: int, last: int, next: int)
    requires MovedBehind(a, r, first, last, next)
    ensures r[next..] == a[next..]
  {
    var tail := r[first + (next - last)..];
    assert r[next..] == tail[last - first..];
  }

  lemma LookingRotated(c: Config, prefix: seq<string>, whole: Outcome, p: Position, p': Position)
    requires Looking(c, prefix, whole, p)
    requires MovedBehind(p.argv, p'.argv, p.first, p.last, p.next)
    requires p'.first == p.first + (p.next - p.last) && p'.last == p'.next == p.next
    requires p'.letters == p.letters && p'.log == p.log
    ensures Looking(c, prefix, whole, p')
  {
    MovedBehindKeepsRest(p.argv, p'.argv, p.first, p.last, p.next);
    var tail := p'.argv[p'.first..];
    assert p'.Skipped() == tail[..p.last - p.first] == p.Skipped();
    assert p'.Done() == p.Done();
  }

  lemma LookingRestarted(c: Config, prefix: seq<string>, whole: Outcome, p: Position)
    requires Looking(c, prefix, whole, p) && p.first == p.last
    ensures Looking(c, prefix, whole, p.(first := p.next, last := p.next))
  {
    assert p.(first := p.next, last := p.next).Done() == p.Done();
  }

  lemma LookingSkips(c: Config, prefix: seq<string>, whole: Outcome, p: Position)
    requires Looking(c, prefix, whole, p) && c.ordering == Permute
    requires p.letters == "" && p.last == p.next < |p.argv|
    requires ClassifyArg(c.longOnly, c.shortOpts, p.argv[p.next]).ArgArg?
    ensures Looking(c, prefix, whole, p.(last := p.next + 1, next := p.next + 1))
  {
    var p' := p.(last := p.next + 1, next := p.next + 1);
    var rest := p.argv[p.next..];
    assert rest[1..] == p.argv[p.next + 1..];
    assert p'.Done() == p.Done();
    assert p'.Skipped() == p.Skipped() + [rest[0]];
    var tail := Scan(c, rest[1..]);
    assert ScanRest(c, p.letters, rest) == Scan(c, rest) == tail.(operands := [rest[0]] + tail.operands);
    assert ScanRest(c, p'.letters, p'.argv[p'.next..]) == tail;
    assert p'.Skipped() + tail.operands == p.Skipped() + ([rest[0]] + tail.operands);
  }

  /** Taking n elements as part of an option, with what the scan says they mean. */
  lemma LookingTakes(
    c: Config, prefix: seq<string>, whole: Outcome, p: Position, n: nat, letters: string, ds: seq<Delivery>)
    requires Looking(c, prefix, whole, p) && p.next + n <= |p.argv|
    requires ScanRest(c, p.letters, p.argv[p.next..])
             == ScanRest(c, letters, p.argv[p.next + n..]).Prepend(ds, p.argv[p.next..p.next + n])
    ensures Looking(c, prefix, whole, p.(next := p.next + n, letters := letters, log := p.log + ds))
  {
    var p' := p.(next := p.next + n, letters := letters, log := p.log + ds);
    var ahead := ScanRest(c, letters, p.argv[p.next + n..]);
    assert p'.log + ahead.options == p.log + (ds + ahead.options);
    var taken := p.argv[p.next..p.next + n];
    assert p'.Done() == p.Done() + taken;
    assert p'.Done() + ahead.elements == p.Done() + (taken + ahead.elements);
  }

  /** Taking an operand where it stands. */
  lemma OperandTaken(c: Config, prefix: seq<string>, whole: Outcome, p: Position)
    requires Looking(c, prefix, whole, p) && p.letters == "" && p.next < |p.argv|
    requires ClassifyArg(c.longOnly, c.shortOpts, p.argv[p.next]).ArgArg? && c.ordering == ReturnInOrder
    ensures var taken := p.argv[p.next..p.next + 1];
            Looking(c, prefix, whole, p.(next := p.next + 1, letters := "", log := p.log + Deliveries(taken)))
  {
    var taken := p.argv[p.next..p.next + 1];
    TailOfTail(p.argv, p.next);
    assert Deliveries(taken) == [OperandDelivery(p.argv[p.next])];
    LookingTakes(c, prefix, whole, p, 1, "", Deliveries(taken));
  }

  /** Taking a group of short options by its first element: its letters are what is ahead. */
  lemma LettersTaken(c: Config, prefix: seq<string>, whole: Outcome, p: Position, letters: string)
    requires Looking(c, prefix, whole, p) && p.letters == "" && p.next < |p.argv|
    requires ClassifyArg(c.longOnly, c.shortOpts, p.argv[p.next]) == ArgShort(letters)
    ensures Looking(c, prefix, whole, p.(next := p.next + 1, letters := letters))
  {
    assert p.argv[p.next..][1..] == p.argv[p.next + 1..];
    LookingTakes(c, prefix, whole, p, 1, letters, []);
    assert p.log + [] == p.log;
  }

  lemma LookingFaults(c: Config, prefix: seq<string>, whole: Outcome, p: Position, d: Diagnostic)
    requires Looking(c, prefix, whole, p) && ScanRest(c, p.letters, p.argv[p.next..]) == Malformed(d)
    ensures whole.fault == Some(d) && whole.options == p.log
  {
    assert p.log + [] == p.log;
  }

  /** Once nothing but operands is left, argv is in its final order as soon as the skipped ones are moved behind. */
  lemma LookingEnds(
    c: Config, prefix: seq<string>, whole: Outcome, p: Position, argv': seq<string>, next': int)
    requires Looking(c, prefix, whole, p) && p.letters == ""
    requires Scan(c, p.argv[p.next..]) == Outcome([], [], p.argv[p.next..], None)
    requires MovedBehind(p.argv, argv', p.first, p.last, p.next) && next' == p.first + (p.next - p.last)
    ensures Handing(prefix, whole, argv', next', p.log)
  {
    assert p.log + [] == p.log && p.Done() + [] == p.Done();
    assert argv' == argv'[..next'] + argv'[next'..];
    HandingStarts(prefix, whole, p.log, argv', next', p.Done());
  }

  lemma HandingStarts(
    prefix: seq<string>, whole: Outcome, log: seq<Delivery>, argv: seq<string>, next: int, elements: seq<string>)
    requires whole.fault.None? && log == whole.options
    requires elements == prefix + whole.elements && argv == elements + whole.operands && next == |elements|
    ensures Handing(prefix, whole, argv, next, log)
  {
    assert argv[next..next] == [];
    assert log + [] == log;
    PermutedIsConcatenation(prefix, whole, argv);
  }

  /** A `--` ends the options: rotating it with them brings argv into its final order. */
  lemma QuoteEnds(
    c: Config, prefix: seq<string>, whole: Outcome, p: Position, behind: int, argv': seq<string>, next': int)
    requires Looking(c, prefix, whole, p) && p.letters == "" && p.next < |p.argv| && behind == p.next + 1
    requires ClassifyArg(c.longOnly, c.shortOpts, p.argv[p.next]).ArgQuote?
    requires MovedBehind(p.argv, argv', p.first, p.last, behind) && next' == p.first + (behind - p.last)
    ensures Handing(prefix, whole, argv', next', p.log)
  {
    var rest := p.argv[p.next..];
    assert rest[1..] == p.argv[behind..];
    assert p.log + [] == p.log;
    assert ScanRest(c, p.letters, rest) == Outcome([], [rest[0]], rest[1..], None);
    assert p.argv[p.last..behind] == p.argv[p.last..p.next] + [rest[0]];
    assert argv'[..next'] == p.Done() + [rest[0]];
    assert argv' == argv'[..next'] + argv'[next'..];
    HandingStarts(prefix, whole, p.log, argv', next', p.Done() + [rest[0]]);
  }

  /** Handing out the operands up to `to`, all at once or one at a time. */
  lemma HandingTakes(
    prefix: seq<string>, whole: Outcome, argv: seq<string>, next: int, log: seq<Delivery>, to: int)
    requires Handing(prefix, whole, argv, next, log) && next <= to <= |argv|
    ensures Handing(prefix, whole, argv, to, log + Deliveries(argv[next..to]))
  {
    var from := |prefix| + |whole.elements|;
    assert argv[from..to] == argv[from..next] + argv[next..to];
  }

  /** Everything a complete run delivers: the options first, then the operands. */
  ghost function Everything(whole: Outcome): seq<Delivery> {
    whole.options + if whole.fault.None? then Deliveries(whole.operands) else []
  }

  lemma {:induction false} LogIsPrefix(c: Config, prefix: seq<string>, whole: Outcome, p: Position)
    requires Looking(c, prefix, whole, p) || Handing(prefix, whole, p.argv, p.next, p.log)
    ensures p.log <= Everything(whole)
  {
    if Handing(prefix, whole, p.argv, p.next, p.log) {
      HandedIsPrefix(prefix, whole, p.argv, p.next, p.log);
    } else {
      LookedIsPrefix(c, prefix, whole, p);
    }
  }

  lemma {:induction false} LookedIsPrefix(c: Config, prefix: seq<string>, whole: Outcome, p: Position)
    requires Looking(c, prefix, whole, p)
    ensures p.log <= Everything(whole)
  {
    assert p.log <= whole.options;
  }

  lemma {:induction false} HandedIsPrefix(
    prefix: seq<string>, whole: Outcome, argv: seq<string>, next: int, log: seq<Delivery>)
    requires Handing(prefix, whole, argv, next, log)
    ensures log <= Everything(whole)
  {
    PermutedIsConcatenation(prefix, whole, argv);
    var from := |prefix| + |whole.elements|;
    assert whole.operands == argv[from..];
    DeliveriesSplit(argv, from, next);
  }

  lemma {:induction false} DeliveriesSplit(argv: seq<string>, from: nat, next: nat)
    requires from <= next <= |argv|
    ensures Deliveries(argv[from..]) == Deliveries(argv[from..next]) + Deliveries(argv[next..])
  {
    assert argv[from..] == argv[from..next] + argv[next..];
  }

  /** User parsers that never move `next` and, where operands are mixed with options, take them one by one. */
  ghost predicate Cooperative(c: Config, reply: Replies) {
    && NeverMoves(reply)
    && (c.ordering == ReturnInOrder ==> forall n: nat :: reply(n, ForArgs).err != Ok)
  }

  /** Every argp has a parser, and it takes every option and every operand it is offered. */
  ghost predicate Accepting(c: Config, reply: Replies) {
    && Cooperative(c, reply)
    && c.groups != [] && (forall g :: 0 <= g < |c.groups| ==> c.groups[g].hasParser)
    && forall n: nat ::
         reply(n, ForOption).err == Ok && reply(n, ForArg).err == Ok && reply(n, ForArgs).err in {Ok, BadKey}
  }
}
