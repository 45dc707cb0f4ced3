/**
 The replies a WvDBusConn waits for (wvdbusconn.cc): every registered callback is called exactly once, by a reply, by
 expiry or because its serial number is used again. Callbacks do not call back into the connection.
 */
module DBusPending {
  import opened Sets

  // ----- times (wvtimeutils.cc) -----

  /** A normal WvTime is the number of its microseconds, which is also what it is compared by. */
  type Time = nat

  const MILLION: nat := 1000000

  function Sec(t: Time): nat {
    t / MILLION
  }

  function Usec(t: Time): nat {
    t % MILLION
  }

  /** Division as C does it: towards zero. */
  function Quotient(a: int, b: int): int
    requires b > 0
  {
    if a >= 0 then a / b else -(-a / b)
  }

  const INT_MAX := 0x7fffffff
  const INT_MIN := -0x80000000

  /** The milliseconds that msecdiff computes before it clamps them. */
  function Msecs(a: Time, b: Time): int {
    (Sec(a) - Sec(b)) * 1000 + Quotient(Usec(a) - Usec(b), 1000)
  }

  function MsecDiff(a: Time, b: Time): int {
    var msecs := Msecs(a, b);
    if msecs > INT_MAX then INT_MAX else if msecs < INT_MIN then INT_MIN else msecs
  }

  /** msecadd: adds to the seconds and to the microseconds, and carries. */
  function MsecAdd(a: Time, msec: nat): Time {
    var sec, usec := Sec(a) + msec / 1000, Usec(a) + (msec % 1000) * 1000;
    (sec + usec / MILLION) * MILLION + usec % MILLION
  }

  lemma MsecAddExact(a: Time, msec: nat)
    ensures MsecAdd(a, msec) == a + 1000 * msec
  {
    var usec := Usec(a) + (msec % 1000) * 1000;
    assert usec == (usec / MILLION) * MILLION + usec % MILLION;
    assert msec == (msec / 1000) * 1000 + msec % 1000;
  }

  /** The microseconds of the later time are not behind by a broken number of milliseconds. */
  predicate WholeBorrow(a: Time, b: Time) {
    var late, early := if a >= b then a else b, if a >= b then b else a;
    Usec(late) >= Usec(early) || (Usec(early) - Usec(late)) % 1000 == 0
  }

  /** Otherwise the milliseconds are one further from zero than the difference chopped to milliseconds. */
  lemma MsecsOfDifference(a: Time, b: Time)
    ensures Msecs(a, b) == Quotient(a - b, 1000) + if WholeBorrow(a, b) then 0 else if a > b then 1 else -1
    ensures -1000 < a - b - 1000 * Msecs(a, b) < 1000
    decreases b - a
  {
    if a < b {
      MsecsOfDifference(b, a);
      assert Msecs(a, b) == -Msecs(b, a);
    } else {
      var u := Usec(a) - Usec(b);
      assert a - b == 1000 * (1000 * (Sec(a) - Sec(b))) + u;
      if u >= 0 {
        assert u == 1000 * (u / 1000) + u % 1000;
      } else {
        assert -u == 1000 * (-u / 1000) + -u % 1000;
      }
    }
  }

  /** A difference that an int can hold comes out right to within a millisecond, and chopped, as the comment on msecdiff
      says of all, exactly under the condition above. */
  lemma MsecDiffChops(a: Time, b: Time)
    requires INT_MIN <= Msecs(a, b) <= INT_MAX
    ensures -1000 < a - b - 1000 * MsecDiff(a, b) < 1000
    ensures MsecDiff(a, b) == Quotient(a - b, 1000) <==> WholeBorrow(a, b)
  {
    MsecsOfDifference(a, b);
  }

  /** For all times: a clamped result is the chopped difference only where that is the bound itself, and was left out of
      range by the rounding. */
  lemma MsecDiffClamps(a: Time, b: Time)
    ensures var chopped := Quotient(a - b, 1000);
            MsecDiff(a, b) == chopped
            <==> if WholeBorrow(a, b) then INT_MIN <= chopped <= INT_MAX else chopped == INT_MIN || chopped == INT_MAX
  {
    MsecsOfDifference(a, b);
  }

  /** 0.9 milliseconds, which msecdiff gives as 1, and -0.9, which it gives as -1. */
  lemma MsecDiffRoundsAway()
    ensures MsecDiff(1 * MILLION, 999100) == 1 && Quotient(1 * MILLION - 999100, 1000) == 0
    ensures MsecDiff(999100, 1 * MILLION) == -1 && Quotient(999100 - 1 * MILLION, 1000) == 0
  {
  }

  // ----- what is pending, and what was called -----

  /** One entry; the token says which registration it is. */
  datatype Pending = Pending(serial: nat, token: nat, validUntil: Time)

  type PendingDict = map<nat, Pending>

  datatype How = Replied | Expired | Canceled

  datatype Firing = Firing(token: nat, how: How)

  /** How often the callback of a registration was called. */
  function Fires(fired: seq<Firing>, t: nat): nat {
    if fired == [] then 0
    else Fires(fired[..|fired| - 1], t) + if fired[|fired| - 1].token == t then 1 else 0
  }

  predicate Waits(pending: PendingDict, t: nat) {
    exists s :: s in pending && pending[s].token == t
  }

  /** No deadline is the zero time. */
  ghost predicate Timed(pending: PendingDict) {
    forall s :: s in pending ==> pending[s].validUntil > 0
  }

  /** The entries are in their places and belong to different registrations. */
  ghost predicate WellKept(pending: PendingDict, registered: nat) {
    && Timed(pending)
    && (forall s :: s in pending ==> s == pending[s].serial && pending[s].token < registered)
    && forall s, s' :: s in pending && s' in pending && s != s' ==> pending[s].token != pending[s'].token
  }

  /** Every registration so far is either waiting and not called yet, or gone and called exactly once. */
  ghost predicate Accounted(pending: PendingDict, fired: seq<Firing>, registered: nat) {
    forall t: nat :: Fires(fired, t) == if t < registered && !Waits(pending, t) then 1 else 0
  }

  function Without(pending: PendingDict, serial: nat): PendingDict {
    map s | s in pending && s != serial :: pending[s]
  }

  lemma ReplacedEntry(pending: PendingDict, p: Pending)
    ensures Without(pending, p.serial)[p.serial := p] == pending[p.serial := p]
  {
  }

  lemma FiresOneMore(fired: seq<Firing>, f: Firing, t: nat)
    ensures Fires(fired + [f], t) == Fires(fired, t) + if f.token == t then 1 else 0
  {
    assert (fired + [f])[..|fired|] == fired;
  }

  /** Taking out an entry and calling its callback keeps the account. */
  lemma AccountedFired(pending: PendingDict, fired: seq<Firing>, registered: nat, serial: nat, how: How)
    requires WellKept(pending, registered) && Accounted(pending, fired, registered) && serial in pending
    ensures WellKept(Without(pending, serial), registered)
    ensures Accounted(Without(pending, serial), fired + [Firing(pending[serial].token, how)], registered)
  {
    var f := Firing(pending[serial].token, how);
    forall t: nat
      ensures Fires(fired + [f], t) == if t < registered && !Waits(Without(pending, serial), t) then 1 else 0
    {
      FiresOneMore(fired, f, t);
      if Waits(pending, t) && t != f.token {
        var s :| s in pending && pending[s].token == t;
        assert s in Without(pending, serial);
      }
    }
  }

  /** A new entry under a serial number that is free keeps the account. */
  lemma AccountedAdded(pending: PendingDict, fired: seq<Firing>, registered: nat, p: Pending)
    requires WellKept(pending, registered) && Accounted(pending, fired, registered) && p.serial !in pending
    requires p.token == registered && p.validUntil > 0
    ensures WellKept(pending[p.serial := p], registered + 1)
    ensures Accounted(pending[p.serial := p], fired, registered + 1)
  {
    var now := pending[p.serial := p];
    forall t: nat
      ensures Waits(now, t) <==> Waits(pending, t) || t == registered
    {
      if Waits(pending, t) {
        var s :| s in pending && pending[s].token == t;
        assert s in now && now[s].token == t;
      }
      if t == registered {
        assert p.serial in now && now[p.serial].token == t;
      }
    }
  }

  // ----- the deadlines -----

  ghost predicate Earliest(pending: PendingDict, s: nat) {
    s in pending && forall s' :: s' in pending ==> pending[s].validUntil <= pending[s'].validUntil
  }

  /** What mintimeout_msec has to say. */
  ghost predicate NextAlarm(pending: PendingDict, now: Time, msec: int) {
    if pending == map[] then msec == -1
    else exists s :: Earliest(pending, s) && msec == AlarmFor(pending[s].validUntil, now)
  }

  function AlarmFor(deadline: Time, now: Time): int {
    if deadline <= now then 0 else MsecDiff(deadline, now)
  }

  /** The earliest deadline of those that are not left to look at, and where it is; the zero time if there is none. */
  ghost predicate EarliestSoFar(pending: PendingDict, rest: set<nat>, when: Time, at: nat) {
    && rest <= pending.Keys
    && (forall s :: s in pending && s !in rest ==> 0 < when <= pending[s].validUntil)
    && (when != 0 ==> at in pending && at !in rest && pending[at].validUntil == when)
  }

  function Sooner(when: Time, deadline: Time): Time {
    if when == 0 || when > deadline then deadline else when
  }

  lemma EarliestOneMore(pending: PendingDict, rest: set<nat>, when: Time, at: nat, s: nat)
    requires Timed(pending) && EarliestSoFar(pending, rest, when, at) && s in rest
    ensures var d := pending[s].validUntil;
            EarliestSoFar(pending, rest - {s}, Sooner(when, d), if Sooner(when, d) == when then at else s)
  {
  }

  lemma EarliestOfAll(pending: PendingDict, when: Time, at: nat, now: Time)
    requires EarliestSoFar(pending, {}, when, at)
    ensures NextAlarm(pending, now, if when == 0 then -1 else AlarmFor(when, now))
  {
    if when == 0 {
      assert forall s :: s !in pending;
      assert pending == map[];
    } else {
      assert Earliest(pending, at);
    }
  }

  /** There is no alarm only if nothing is pending; otherwise it comes less than a millisecond after the earliest
      deadline, or at once if that is over; and less than a millisecond before it, if it can be that late. */
  lemma AlarmInTime(pending: PendingDict, now: Time, msec: int, s: nat)
    requires NextAlarm(pending, now, msec) && s in pending
    ensures 0 <= msec <= INT_MAX
    ensures pending[s].validUntil <= now ==> msec == 0
    ensures pending[s].validUntil > now ==>
              now + 1000 * msec < pending[s].validUntil + 1000
    ensures Earliest(pending, s) && msec < INT_MAX ==> pending[s].validUntil < now + 1000 * msec + 1000
  {
    var e :| Earliest(pending, e) && msec == AlarmFor(pending[e].validUntil, now);
    var d := pending[e].validUntil;
    if d > now {
      MsecsOfDifference(d, now);
    }
  }

  predicate Overdue(p: Pending, now: Time) {
    now > p.validUntil
  }

  function InTime(pending: PendingDict, now: Time): PendingDict {
    map s | s in pending && !Overdue(pending[s], now) :: pending[s]
  }

  /** The entries without a reply among these messages; a reply serial of zero is none. */
  function Unanswered(pending: PendingDict, messages: seq<nat>): PendingDict {
    map s | s in pending && (s == 0 || s !in messages) :: pending[s]
  }

  /** Every entry that is gone was called back, in this way. */
  ghost predicate GoneAs(was: PendingDict, pending: PendingDict, fired: seq<Firing>, how: How) {
    forall s :: s in was && s !in pending ==> Firing(was[s].token, how) in fired
  }

  lemma UnansweredNone(pending: PendingDict)
    ensures Unanswered(pending, []) == pending
  {
  }

  lemma UnansweredOneMore(pending: PendingDict, messages: seq<nat>, i: nat)
    requires i < |messages|
    ensures var left, m := Unanswered(pending, messages[..i]), messages[i];
            Unanswered(pending, messages[..i + 1]) == if m != 0 && m in left then Without(left, m) else left
  {
    assert messages[..i + 1] == messages[..i] + [messages[i]];
  }

  /** The loop has taken out some overdue entries, and called their callbacks. */
  ghost predicate Expiring(was: PendingDict, before: seq<Firing>, pending: PendingDict, fired: seq<Firing>, now: Time) {
    && pending.Keys <= was.Keys
    && (forall s :: s in pending ==> pending[s] == was[s])
    && (forall s :: s in was && s !in pending ==> Overdue(was[s], now) && Firing(was[s].token, Expired) in fired)
    && before <= fired && (forall k :: |before| <= k < |fired| ==> fired[k].how == Expired)
    && |fired| + |pending.Keys| == |before| + |was.Keys|
  }

  lemma ExpiringOneMore(
    was: PendingDict, before: seq<Firing>, pending: PendingDict, fired: seq<Firing>, now: Time, s: nat)
    requires Expiring(was, before, pending, fired, now) && s in pending && Overdue(pending[s], now)
    ensures Expiring(was, before, Without(pending, s), fired + [Firing(pending[s].token, Expired)], now)
    ensures |Without(pending, s).Keys| == |pending.Keys| - 1
  {
    OneLess(pending.Keys, s);
    assert pending.Keys - {s} == Without(pending, s).Keys;
  }

  lemma ExpiringEnds(was: PendingDict, before: seq<Firing>, pending: PendingDict, fired: seq<Firing>, now: Time)
    requires Expiring(was, before, pending, fired, now) && forall s :: s in pending ==> !Overdue(pending[s], now)
    ensures pending == InTime(was, now)
  {
  }

  // ----- the part of the connection that keeps them -----

  class PendingTable {
    var pending: PendingDict
    var alarm: int
    var fired: seq<Firing>
    var registered: nat

    ghost predicate Valid()
      reads this`pending, this`fired, this`registered
    {
      WellKept(pending, registered) && Accounted(pending, fired, registered)
    }

    constructor ()
      ensures Valid() && pending == map[] && fired == [] && registered == 0
    {
      pending, alarm, fired, registered := map[], -1, [], 0;
    }

    /** mintimeout_msec. */
    method MinTimeoutMsec(now: Time) returns (msec: int)
      requires Timed(pending)
      ensures NextAlarm(pending, now, msec)
    {
      var when, at := FirstDeadline();
      msec := Sleep(when, now);
      EarliestOfAll(pending, when, at, now);
    }

    /** The loop of mintimeout_msec, for any order of the table. */
    method FirstDeadline() returns (when: Time, ghost at: nat)
      requires Timed(pending)
      ensures EarliestSoFar(pending, {}, when, at)
    {
      when, at := 0, 0;
      var rest := pending.Keys;
      while rest != {}
        invariant EarliestSoFar(pending, rest, when, at)
        decreases rest
      {
        var s :| s in rest;
        EarliestOneMore(pending, rest, when, at, s);
        if when == 0 || when > pending[s].validUntil {
          when, at := pending[s].validUntil, s;
        }
        rest := rest - {s};
      }
    }

    /** The last part of mintimeout_msec: the zero time stands for none. */
    method Sleep(when: Time, now: Time) returns (msec: int)
      ensures msec == if when == 0 then -1 else AlarmFor(when, now)
    {
      if when == 0 {
        msec := -1;
      } else if when <= now {
        msec := 0;
      } else {
        msec := MsecDiff(when, now);
      }
    }

    /** Takes an entry out and calls its callback: expire_pending, cancel_pending, and the reply in filter_func. */
    method Fire(serial: nat, how: How)
      requires Valid() && serial in pending
      modifies this`pending, this`fired
      ensures Valid() && pending == Without(old(pending), serial)
      ensures fired == old(fired) + [Firing(old(pending)[serial].token, how)]
    {
      AccountedFired(pending, fired, registered, serial, how);
      var token := pending[serial].token;
      pending := Without(pending, serial);
      fired := fired + [Firing(token, how)];
    }

    /** cancel_pending, if there is one. */
    method CancelPending(serial: nat)
      requires Valid()
      modifies this`pending, this`fired
      ensures Valid() && pending == Without(old(pending), serial)
      ensures fired == old(fired)
                       + if serial in old(pending) then [Firing(old(pending)[serial].token, Canceled)] else []
    {
      if serial in pending {
        Fire(serial, Canceled);
      } else {
        assert Without(pending, serial) == pending;
      }
    }

    /** The table part of add_pending. */
    method Enter(p: Pending)
      requires Valid() && p.token == registered && p.validUntil > 0
      modifies this`pending, this`fired, this`registered
      ensures Valid() && pending == old(pending)[p.serial := p] && registered == old(registered) + 1
      ensures fired == old(fired) + if p.serial in old(pending)
                                    then [Firing(old(pending)[p.serial].token, Canceled)] else []
    {
      ReplacedEntry(pending, p);
      CancelPending(p.serial);
      AccountedAdded(pending, fired, registered, p);
      pending := pending[p.serial := p];
      registered := registered + 1;
    }

    method Deadline(msecTimeout: int, now: Time) returns (validUntil: Time)
      ensures validUntil == now + 1000 * if msecTimeout < 0 then 5 * 3600 * 1000 else msecTimeout
    {
      var timeout: nat := if msecTimeout < 0 then 5 * 3600 * 1000 else msecTimeout;
      MsecAddExact(now, timeout);
      validUntil := MsecAdd(now, timeout);
    }

    /** add_pending: a negative timeout is five hours. */
    method AddPending(serial: nat, msecTimeout: int, now: Time) returns (token: nat)
      requires Valid() && serial != 0 && now > 0
      modifies this
      ensures Valid() && token == old(registered) && registered == old(registered) + 1
      ensures pending == old(pending)[serial :=
          Pending(serial, token, now + 1000 * if msecTimeout < 0 then 5 * 3600 * 1000 else msecTimeout)]
      ensures fired == old(fired)
                       + if serial in old(pending) then [Firing(old(pending)[serial].token, Canceled)] else []
      ensures NextAlarm(pending, now, alarm)
    {
      token := registered;
      var validUntil := Deadline(msecTimeout, now);
      Enter(Pending(serial, token, validUntil));
      alarm := MinTimeoutMsec(now);
    }

    /** filter_func: a reply to a pending message is handled here, and by no other callback. */
    method FilterFunc(replySerial: nat, others: bool) returns (handled: bool)
      requires Valid()
      modifies this`pending, this`fired
      ensures Valid()
      ensures handled == (others || (replySerial != 0 && replySerial in old(pending)))
      ensures if replySerial != 0 && replySerial in old(pending)
              then pending == Without(old(pending), replySerial)
                   && fired == old(fired) + [Firing(old(pending)[replySerial].token, Replied)]
              else pending == old(pending) && fired == old(fired)
    {
      if replySerial != 0 {
        if replySerial in pending {
          Fire(replySerial, Replied);
          return true;
        }
      }
      return others;
    }

    /** The expiry loop of post_select, for any order of the table: after each expiry it starts again. */
    method ExpireOverdue(now: Time)
      requires Valid()
      modifies this`pending, this`fired
      ensures Valid() && pending == InTime(old(pending), now)
      ensures forall s :: s in pending <==> s in old(pending) && now <= old(pending)[s].validUntil
      ensures old(fired) <= fired
      ensures forall k :: |old(fired)| <= k < |fired| ==> fired[k].how == Expired
      ensures GoneAs(old(pending), pending, fired, Expired)
      ensures |fired| - |old(fired)| == |old(pending).Keys| - |pending.Keys|
    {
      ghost var was, before := pending, fired;
      var rest := pending.Keys;
      while rest != {}
        invariant Valid() && rest <= pending.Keys && Expiring(was, before, pending, fired, now)
        invariant forall s :: s in pending && s !in rest ==> !Overdue(pending[s], now)
        decreases |pending.Keys|, |rest|
      {
        var s :| s in rest;
        if Overdue(pending[s], now) {
          ExpiringOneMore(was, before, pending, fired, now, s);
          Fire(s, Expired);
          rest := pending.Keys;
        } else {
          OneLess(rest, s);
          rest := rest - {s};
        }
      }
      ExpiringEnds(was, before, pending, fired, now);
    }

    /** The part of post_select about pending replies: messages are the reply serials of what is read. */
    method PostSelect(now: Time, alarmIsDue: bool, messages: seq<nat>, later: Time)
      requires Valid()
      modifies this`pending, this`fired, this`alarm
      ensures Valid() && old(fired) <= fired
      ensures pending == Unanswered(if alarmIsDue then InTime(old(pending), now) else old(pending), messages)
      ensures forall s :: s in old(pending) && s !in pending ==>
                            Firing(old(pending)[s].token, if alarmIsDue && Overdue(old(pending)[s], now)
                                                          then Expired else Replied) in fired
      ensures NextAlarm(pending, later, alarm)
    {
      if alarmIsDue {
        ExpireOverdue(now);
      }
      HandleReplies(messages);
      alarm := MinTimeoutMsec(later);
    }

    /** The loop of post_select over what is read. */
    method HandleReplies(messages: seq<nat>)
      requires Valid()
      modifies this`pending, this`fired
      ensures Valid() && old(fired) <= fired && pending == Unanswered(old(pending), messages)
      ensures GoneAs(old(pending), pending, fired, Replied)
    {
      ghost var was := pending;
      UnansweredNone(was);
      for i := 0 to |messages|
        invariant Valid() && old(fired) <= fired && pending == Unanswered(was, messages[..i])
        invariant GoneAs(was, pending, fired, Replied)
      {
        UnansweredOneMore(was, messages, i);
        var _ := FilterFunc(messages[i], false);
      }
      assert messages[..|messages|] == messages;
    }
  }

  /** What happens to a connection: a message with a callback is sent, or post_select runs. */
  datatype Event =
    | Sends(serial: nat, msecTimeout: int, now: Time)
    | Turns(now: Time, alarmIsDue: bool, messages: seq<nat>, later: Time)

  predicate Proper(e: Event) {
    e.Sends? ==> e.serial != 0 && e.now > 0
  }

  function NumSent(events: seq<Event>, n: nat): nat
    requires n <= |events|
  {
    if n == 0 then 0 else NumSent(events, n - 1) + if events[n - 1].Sends? then 1 else 0
  }

  /** Any run of a new connection: every callback that was registered is waiting and was never called, or does not wait
      any more and was called exactly once; nothing else was called. */
  method Run(events: seq<Event>) returns (pending: PendingDict, fired: seq<Firing>)
    requires forall k :: 0 <= k < |events| ==> Proper(events[k])
    ensures forall t: nat :: Waits(pending, t) ==> t < NumSent(events, |events|) && Fires(fired, t) == 0
    ensures forall t: nat :: t < NumSent(events, |events|) && !Waits(pending, t) ==> Fires(fired, t) == 1
    ensures forall t: nat :: NumSent(events, |events|) <= t ==> Fires(fired, t) == 0
  {
    var conn := new PendingTable();
    var i := 0;
    while i < |events|
      invariant i <= |events| && conn.Valid() && conn.registered == NumSent(events, i)
      invariant fresh(conn)
    {
      match events[i] {
        case Sends(serial, msecTimeout, now) =>
          var _ := conn.AddPending(serial, msecTimeout, now);
        case Turns(now, alarmIsDue, messages, later) =>
          conn.PostSelect(now, alarmIsDue, messages, later);
      }
      i := i + 1;
    }
    pending, fired := conn.pending, conn.fired;
  }
}
