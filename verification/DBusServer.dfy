/**
 The name table and the routing of WvDBusServer (wvdbusserver.cc). What the table must say is given by the history of
 connections, requests and releases; what the server sends in answer to a message is given by that history alone.
 */
module DBusServer {
  import opened Optional
  import opened Decimals
  import opened Sets

  /** A connection, by the number that the global counter gave it. */
  datatype Conn = Conn(id: nat)

  function UniqueName(c: Conn): (r: string)
    ensures r != []
  {
    ":" + Decimal(c.id) + ".0"
  }

  lemma UniqueNamesDiffer(c: Conn, d: Conn)
    requires UniqueName(c) == UniqueName(d)
    ensures c == d
  {
    var s, t := UniqueName(c), UniqueName(d);
    assert s[1..|s| - 2] == Decimal(c.id) && t[1..|t| - 2] == Decimal(d.id);
    DecimalInjective(c.id, d.id);
  }

  // ----- who owns a name -----

  datatype Event =
    | Connected(c: Conn)
    | Requested(name: string, c: Conn)
    | Released(name: string, c: Conn)
    | Closed(c: Conn)

  /** This event gives the name to the connection. */
  predicate Gives(e: Event, name: string, c: Conn) {
    || (e.Connected? && e.c == c && name == UniqueName(c))
    || (e.Requested? && e.c == c && e.name == name)
  }

  /** This event takes the name away from the connection. */
  predicate Takes(e: Event, name: string, c: Conn) {
    || (e.Connected? && e.c != c && name == UniqueName(e.c))
    || (e.Requested? && e.c != c && e.name == name)
    || (e.Released? && e.name == name)
    || (e.Closed? && e.c == c)
  }

  /** The owner of a name after some events. */
  function Owner(h: seq<Event>, name: string): Option<Conn> {
    if h == [] then None
    else
      var e, before := h[|h| - 1], Owner(h[..|h| - 1], name);
      match e
      case Connected(c) => if name == UniqueName(c) then Some(c) else before
      case Requested(n, c) => if n == name then Some(c) else before
      case Released(n, c) => if n == name then None else before
      case Closed(c) => if before == Some(c) then None else before
  }

  /** The event at this place gave the name to the connection, and nothing has taken it away since. */
  ghost predicate Keeps(h: seq<Event>, i: nat, name: string, c: Conn) {
    i < |h| && Gives(h[i], name, c) && forall j :: i < j < |h| ==> !Takes(h[j], name, c)
  }

  /** A connection owns a name exactly when it was given the name and nothing has taken it away since. */
  lemma {:induction false} OwnerIsLatest(h: seq<Event>, name: string, c: Conn)
    ensures Owner(h, name) == Some(c) <==> exists i: nat :: Keeps(h, i, name, c)
  {
    if h != [] {
      var init, e := h[..|h| - 1], h[|h| - 1];
      OwnerIsLatest(init, name, c);
      assert Owner(h, name) == Some(c)
             <==> Gives(e, name, c) || (Owner(init, name) == Some(c) && !Takes(e, name, c));
      forall i: nat
        ensures Keeps(h, i, name, c)
                <==> (i == |h| - 1 && Gives(e, name, c)) || (Keeps(init, i, name, c) && !Takes(e, name, c))
      {
        assert i < |init| ==> init[i] == h[i];
      }
      if Gives(e, name, c) {
        assert Keeps(h, |h| - 1, name, c);
      }
    }
  }

  /** The open connections, in the order in which they came. */
  function Alive(h: seq<Event>): seq<Conn> {
    if h == [] then []
    else
      var e, before := h[|h| - 1], Alive(h[..|h| - 1]);
      match e
      case Connected(c) => before + [c]
      case Closed(c) => Remaining(before, c)
      case _ => before
  }

  function Remaining(s: seq<Conn>, c: Conn): (r: seq<Conn>)
    ensures forall d :: d in r <==> d in s && d != c
  {
    if s == [] then []
    else
      var last := s[|s| - 1];
      Remaining(s[..|s| - 1], c) + if last == c then [] else [last]
  }

  /** Connections are new when they come, and only open connections act. */
  ghost predicate Sane(h: seq<Event>, count: nat) {
    h == []
    || (var e, init := h[|h| - 1], h[..|h| - 1];
        if e.Connected? then e.c.id == count && count > 0 && Sane(init, count - 1)
        else e.c in Alive(init) && Sane(init, count))
  }

  /** Only open connections own names. */
  lemma {:induction false} OwnerIsAlive(h: seq<Event>, count: nat, name: string)
    requires Sane(h, count) && Owner(h, name).Some?
    ensures Owner(h, name).value in Alive(h)
  {
    var e, init := h[|h| - 1], h[..|h| - 1];
    var n := if e.Connected? then count - 1 else count;
    if Owner(h, name) == Owner(init, name) {
      OwnerIsAlive(init, n, name);
    }
  }

  /** No connection is in the list twice, or has a number above the count. */
  lemma {:induction false} AliveOnce(h: seq<Event>, count: nat)
    requires Sane(h, count)
    ensures forall i :: 0 <= i < |Alive(h)| ==> Alive(h)[i].id <= count
    ensures forall i, j :: 0 <= i < j < |Alive(h)| ==> Alive(h)[i] != Alive(h)[j]
  {
    if h != [] {
      var e, init := h[|h| - 1], h[..|h| - 1];
      AliveOnce(init, if e.Connected? then count - 1 else count);
      if e.Closed? {
        RemainingOnce(Alive(init), e.c);
        forall i | 0 <= i < |Alive(h)|
          ensures Alive(h)[i].id <= count
        {
          assert Alive(h)[i] in Alive(init);
        }
      }
    }
  }

  lemma {:induction false} RemainingOnce(s: seq<Conn>, c: Conn)
    requires forall i, j :: 0 <= i < j < |s| ==> s[i] != s[j]
    ensures forall i, j :: 0 <= i < j < |Remaining(s, c)| ==> Remaining(s, c)[i] != Remaining(s, c)[j]
  {
    if s != [] {
      RemainingOnce(s[..|s| - 1], c);
      assert s[|s| - 1] !in s[..|s| - 1];
    }
  }

  /** An open connection owns its unique name, unless somebody has asked for that name or released it. */
  lemma {:induction false} UniqueNameOwned(h: seq<Event>, count: nat, c: Conn)
    requires Sane(h, count) && c in Alive(h)
    requires forall i :: 0 <= i < |h| && (h[i].Requested? || h[i].Released?) ==> h[i].name != UniqueName(c)
    ensures Owner(h, UniqueName(c)) == Some(c)
  {
    var e, init := h[|h| - 1], h[..|h| - 1];
    if e.Connected? && UniqueName(e.c) == UniqueName(c) {
      UniqueNamesDiffer(e.c, c);
    } else {
      UniqueNameOwned(init, if e.Connected? then count - 1 else count, c);
    }
  }

  lemma {:induction false} RemainingJoined(s: seq<Conn>, t: seq<Conn>, c: Conn)
    ensures Remaining(s + t, c) == Remaining(s, c) + Remaining(t, c)
  {
    if t == [] {
      assert s + t == s;
    } else {
      RemainingJoined(s, t[..|t| - 1], c);
      assert (s + t)[..|s + t| - 1] == s + t[..|t| - 1];
    }
  }

  /** Taking out one occurrence changes nothing about what remains. */
  lemma {:induction false} RemainingWithout(s: seq<Conn>, k: nat, c: Conn)
    requires k < |s| && s[k] == c
    ensures Remaining(s[..k] + s[k + 1..], c) == Remaining(s, c)
  {
    RemainingJoined(s[..k], s[k + 1..], c);
    RemainingJoined(s[..k + 1], s[k + 1..], c);
    assert s[..k + 1][..k] == s[..k] && s == s[..k + 1] + s[k + 1..];
  }

  lemma {:induction false} RemainingAll(s: seq<Conn>, c: Conn)
    requires c !in s
    ensures Remaining(s, c) == s
  {
    if s != [] {
      var init, last := s[..|s| - 1], s[|s| - 1];
      assert s == init + [last] && last in s;
      assert forall d :: d in init ==> d in s;
      RemainingAll(init, c);
      assert Remaining(s, c) == Remaining(init, c) + [last];
    }
  }

  // ----- what is sent -----

  datatype Message = Message(path: string, dest: string, member: string, arg: string, serial: nat, sender: string)

  datatype Body = YourName(name: string) | PrimaryOwner | NameReleased | HasOwner(yes: bool) | OwnerIs(name: string)
                | NoMatch(name: string) | Done | Credential(member: string, target: Option<Conn>)
                | UnknownMethod(member: string) | NoService(name: string)

  datatype Sent = Answer(to: Conn, serial: nat, body: Body) | Forward(to: Conn, msg: Message)

  const BUS := "org.freedesktop.DBus"

  predicate IsLocal(msg: Message) {
    msg.path == "/org/freedesktop/DBus/Local" && msg.member == "Disconnected"
  }

  predicate IsForBus(msg: Message) {
    !IsLocal(msg) && msg.dest == BUS
  }

  predicate AsksCredential(member: string) {
    member in {"GetConnectionUnixUser", "GetConnectionUnixUserName",
               "GetConnectionCert", "GetConnectionCertFingerprint"}
  }

  /** The bus's answer to a call of its own. */
  function BusAnswer(h: seq<Event>, conn: Conn, msg: Message): Body {
    if msg.member == "Hello" then YourName(UniqueName(conn))
    else if msg.member == "RequestName" then PrimaryOwner
    else if msg.member == "ReleaseName" then NameReleased
    else if msg.member == "NameHasOwner" then HasOwner(Owner(h, msg.arg).Some?)
    else if msg.member == "GetNameOwner" then
      match Owner(h, msg.arg) case Some(c) => OwnerIs(UniqueName(c)) case None => NoMatch(msg.arg)
    else if msg.member == "AddMatch" || msg.member == "StartServiceByName" then Done
    else if AsksCredential(msg.member) then Credential(msg.member, Owner(h, msg.arg))
    else UnknownMethod(msg.member)
  }

  function ToAll(conns: seq<Conn>, msg: Message): (r: seq<Sent>)
    ensures |r| == |conns|
  {
    seq(|conns|, k requires 0 <= k < |conns| => Forward(conns[k], msg))
  }

  /** Everything that is sent because of one message. */
  function Routed(h: seq<Event>, conn: Conn, msg: Message): seq<Sent> {
    if IsLocal(msg) then []
    else if msg.dest == BUS then [Answer(conn, msg.serial, BusAnswer(h, conn, msg))]
    else if msg.dest == "" then ToAll(Alive(h), msg)
    else
      match Owner(h, msg.dest)
      case Some(c) => [Forward(c, msg.(sender := UniqueName(conn)))]
      case None => [Answer(conn, msg.serial, NoService(msg.dest))]
  }

  /** The events that one message is. */
  function EventsOf(conn: Conn, msg: Message): seq<Event> {
    if IsForBus(msg) && msg.member == "RequestName" then [Requested(msg.arg, conn)]
    else if IsForBus(msg) && msg.member == "ReleaseName" then [Released(msg.arg, conn)]
    else []
  }

  /** A call that trips the assertion of unregister_name: the release of a name that the caller does not own. */
  predicate Trips(h: seq<Event>, conn: Conn, msg: Message) {
    IsForBus(msg) && msg.member == "ReleaseName" && Owner(h, msg.arg) != Some(conn)
  }

  /** Nothing is sent to a closed connection; a message that is not broadcast goes to exactly one. */
  lemma RoutedToTheLiving(h: seq<Event>, count: nat, conn: Conn, msg: Message)
    requires Sane(h, count) && conn in Alive(h)
    ensures forall s :: s in Routed(h, conn, msg) ==> s.to in Alive(h)
    ensures !IsLocal(msg) && msg.dest != "" ==> |Routed(h, conn, msg)| == 1
    ensures !IsLocal(msg) && msg.dest == "" ==> forall c :: c in Alive(h) ==> Forward(c, msg) in Routed(h, conn, msg)
    ensures var sent := Routed(h, conn, msg);
            forall i, j :: 0 <= i < j < |sent| ==> sent[i].to != sent[j].to
  {
    AliveOnce(h, count);
    if Owner(h, msg.dest).Some? {
      OwnerIsAlive(h, count, msg.dest);
    }
    if !IsLocal(msg) && msg.dest == "" {
      forall c | c in Alive(h)
        ensures Forward(c, msg) in Routed(h, conn, msg)
      {
        var k :| 0 <= k < |Alive(h)| && Alive(h)[k] == c;
        assert ToAll(Alive(h), msg)[k] == Forward(c, msg);
      }
    }
  }

  // ----- requests, releases and queries -----

  /** Who owns what after a message, by its text: RequestName gives the name that is asked for to the caller,
      ReleaseName leaves it to nobody, and nothing else changes an owner. */
  ghost predicate OwnersFollow(before: seq<Event>, after: seq<Event>, conn: Conn, msg: Message) {
    forall name :: Owner(after, name)
                   == if msg.dest == "org.freedesktop.DBus" && msg.member == "RequestName" && name == msg.arg
                      then Some(conn)
                      else if msg.dest == "org.freedesktop.DBus" && msg.member == "ReleaseName" && name == msg.arg
                      then None
                      else Owner(before, name)
  }

  lemma MessageChangesOwners(h: seq<Event>, conn: Conn, msg: Message)
    ensures OwnersFollow(h, h + EventsOf(conn, msg), conn, msg)
  {
    var events := EventsOf(conn, msg);
    if events == [] {
      assert h + events == h;
    } else {
      assert (h + events)[..|h|] == h;
    }
  }

  /** A call of the bus itself. */
  function Call(member: string, arg: string, serial: nat): Message {
    Message("/org/freedesktop/DBus", "org.freedesktop.DBus", member, arg, serial, "")
  }

  /** Two queries, of whoever asks, tell who owns the name: whether somebody does, and under which unique name. */
  ghost predicate AnswersSay(h: seq<Event>, name: string, owner: Option<Conn>) {
    forall asker, serial ::
      && Routed(h, asker, Call("NameHasOwner", name, serial)) == [Answer(asker, serial, HasOwner(owner.Some?))]
      && Routed(h, asker, Call("GetNameOwner", name, serial))
         == [Answer(asker, serial, if owner.Some? then OwnerIs(UniqueName(owner.value)) else NoMatch(name))]
  }

  lemma AnswersSayOwner(h: seq<Event>, name: string)
    ensures AnswersSay(h, name, Owner(h, name))
  {
  }

  /** After a request for a name the answers say the caller; after a release, or when the caller has closed, nobody. */
  lemma AnswersFollowRequests(h: seq<Event>, conn: Conn, name: string, serial: nat)
    ensures var requested := h + EventsOf(conn, Call("RequestName", name, serial));
            && AnswersSay(requested, name, Some(conn))
            && AnswersSay(requested + [Closed(conn)], name, None)
            && forall other: Conn :: other != conn ==> AnswersSay(requested + [Closed(other)], name, Some(conn))
    ensures AnswersSay(h + EventsOf(conn, Call("ReleaseName", name, serial)), name, None)
  {
    var request := Call("RequestName", name, serial);
    var requested := h + EventsOf(conn, request);
    MessageChangesOwners(h, conn, request);
    MessageChangesOwners(h, conn, Call("ReleaseName", name, serial));
    AnswersSayOwner(requested, name);
    AnswersSayOwner(h + EventsOf(conn, Call("ReleaseName", name, serial)), name);
    forall c
      ensures AnswersSay(requested + [Closed(c)], name, if c == conn then None else Some(conn))
    {
      assert (requested + [Closed(c)])[..|requested|] == requested;
      AnswersSayOwner(requested + [Closed(c)], name);
    }
  }

  /** A message for a name goes to the connection that asked for it, with its sender set; when that has closed, the
      sender is told that there is no such service. */
  lemma RoutesFollowRequests(h: seq<Event>, conn: Conn, name: string, serial: nat, from: Conn, msg: Message)
    requires msg.dest == name && name != "" && name != BUS && !IsLocal(msg)
    ensures var requested := h + EventsOf(conn, Call("RequestName", name, serial));
            && Routed(requested, from, msg) == [Forward(conn, msg.(sender := UniqueName(from)))]
            && Routed(requested + [Closed(conn)], from, msg) == [Answer(from, msg.serial, NoService(name))]
  {
    var request := Call("RequestName", name, serial);
    var requested := h + EventsOf(conn, request);
    MessageChangesOwners(h, conn, request);
    assert (requested + [Closed(conn)])[..|requested|] == requested;
  }

  /** Hello tells a connection a name that it owns. */
  lemma HelloTellsOwnName(h: seq<Event>, count: nat, c: Conn, serial: nat)
    requires Sane(h, count) && c in Alive(h)
    requires forall i :: 0 <= i < |h| && (h[i].Requested? || h[i].Released?) ==> h[i].name != UniqueName(c)
    ensures exists name :: Routed(h, c, Call("Hello", "", serial)) == [Answer(c, serial, YourName(name))]
                           && Owner(h, name) == Some(c)
  {
    UniqueNameOwned(h, count, c);
  }

  /** In terms of what has happened: the answer is yes exactly if some connection was given the name and nothing has
      taken it away since; and then it is that connection's unique name. */
  lemma AnswersTellHistory(h: seq<Event>, name: string)
    ensures forall c :: (exists i: nat :: Keeps(h, i, name, c)) ==> AnswersSay(h, name, Some(c))
    ensures (forall i: nat, c :: !Keeps(h, i, name, c)) ==> AnswersSay(h, name, None)
  {
    forall c
      ensures Owner(h, name) == Some(c) <==> exists i: nat :: Keeps(h, i, name, c)
    {
      OwnerIsLatest(h, name, c);
    }
  }

  // ----- the server -----

  datatype Verdict = Handled | NotHandled | Aborted

  function Look(names: map<string, Option<Conn>>, name: string): Option<Conn> {
    if name in names then names[name] else None
  }

  class WvDBusServer {
    var names: map<string, Option<Conn>>
    var conns: seq<Conn>
    var count: nat
    var sent: seq<Sent>

    /** What has happened so far. */
    ghost var history: seq<Event>

    ghost predicate Valid()
      reads this
    {
      && Sane(history, count) && conns == Alive(history)
      && forall name :: Look(names, name) == Owner(history, name)
    }

    constructor ()
      ensures Valid() && history == [] && sent == []
    {
      names, conns, count, sent, history := map[], [], 0, [], [];
    }

    /** operator[] of the map: a name that is not there is put there, with no connection. */
    method At(name: string) returns (c: Option<Conn>)
      modifies this`names
      ensures c == Look(old(names), name)
      ensures forall n :: Look(names, n) == Look(old(names), n)
    {
      if name !in names {
        names := names[name := None];
      }
      c := names[name];
    }

    method RegisterName(name: string, conn: Conn)
      requires Valid() && conn in conns
      modifies this`names, this`history
      ensures Valid() && history == old(history) + [Requested(name, conn)]
    {
      names := names[name := Some(conn)];
      history := history + [Requested(name, conn)];
    }

    /** unregister_name: its assertion fails exactly when the connection does not own the name. */
    method UnregisterName(name: string, conn: Conn) returns (ok: bool)
      requires Valid() && conn in conns
      modifies this`names, this`history
      ensures ok == (Owner(old(history), name) == Some(conn))
      ensures Valid() && history == if ok then old(history) + [Released(name, conn)] else old(history)
    {
      var c := At(name);
      ok := c == Some(conn);
      if ok {
        names := map n | n in names && n != name :: names[n];
        history := history + [Released(name, conn)];
      }
    }

    /** The loop of unregister_conn, for any order of the map: after each removal it starts again. */
    method RemoveNamesOf(conn: Conn)
      modifies this`names
      ensures names == map n | n in old(names) && old(names)[n] != Some(conn) :: old(names)[n]
    {
      var passed: set<string> := {};
      while passed != names.Keys
        invariant passed <= names.Keys <= old(names).Keys
        invariant forall n :: n in names ==> names[n] == old(names)[n]
        invariant forall n :: n in old(names) && n !in names ==> old(names)[n] == Some(conn)
        invariant forall n :: n in passed ==> names[n] != Some(conn)
        decreases |names.Keys|, |names.Keys - passed|
      {
        var name :| name in names.Keys - passed;
        if names[name] == Some(conn) {
          OneLess(names.Keys, name);
          ghost var keys := names.Keys;
          names := map n | n in names && n != name :: names[n];
          assert names.Keys == keys - {name};
          passed := {};
        } else {
          OneLess(names.Keys - passed, name);
          assert names.Keys - (passed + {name}) == (names.Keys - passed) - {name};
          passed := passed + {name};
        }
      }
    }

    /** The place of a connection in the list, or its length. */
    method PlaceOf(conn: Conn) returns (k: nat)
      ensures k <= |conns| && conn !in conns[..k] && (k < |conns| ==> conns[k] == conn)
    {
      k := 0;
      while k < |conns| && conns[k] != conn
        invariant k <= |conns| && conn !in conns[..k]
      {
        k := k + 1;
      }
    }

    /** unlink of the list: finds the connection and takes it out until it is not there any more. */
    method UnlinkConn(conn: Conn)
      modifies this`conns
      ensures conns == Remaining(old(conns), conn)
    {
      var k: nat := PlaceOf(conn);
      while k < |conns|
        invariant k <= |conns| && conn !in conns[..k] && (k < |conns| ==> conns[k] == conn)
        invariant Remaining(conns, conn) == Remaining(old(conns), conn)
        decreases |conns|
      {
        RemainingWithout(conns, k, conn);
        conns := conns[..k] + conns[k + 1..];
        k := PlaceOf(conn);
      }
      assert conns[..k] == conns;
      RemainingAll(conns, conn);
    }

    /** unregister_conn. */
    method UnregisterConn(conn: Conn)
      requires Valid() && conn in conns
      modifies this`names, this`conns, this`history
      ensures Valid() && history == old(history) + [Closed(conn)]
      ensures forall n :: Look(names, n) == if Look(old(names), n) == Some(conn) then None else Look(old(names), n)
      ensures conns == Remaining(old(conns), conn)
    {
      RemoveNamesOf(conn);
      UnlinkConn(conn);
      history := history + [Closed(conn)];
    }

    /** new_connection_cb. */
    method NewConnection() returns (c: Conn)
      requires Valid()
      modifies this`names, this`conns, this`count, this`history
      ensures Valid() && history == old(history) + [Connected(c)]
      ensures c !in old(conns) && conns == old(conns) + [c]
    {
      AliveOnce(history, count);
      count := count + 1;
      c := Conn(count);
      conns := conns + [c];
      names := names[UniqueName(c) := Some(c)];
      history := history + [Connected(c)];
    }

    /** do_server_msg. */
    method DoServerMsg(conn: Conn, msg: Message) returns (v: Verdict)
      requires Valid() && conn in conns
      modifies this`names, this`sent, this`history
      ensures Valid()
      ensures v == if Trips(old(history), conn, msg) then Aborted
                   else if IsLocal(msg) || IsForBus(msg) then Handled else NotHandled
      ensures v == Handled ==> sent == old(sent) + Routed(old(history), conn, msg)
      ensures v != Handled ==> sent == old(sent)
      ensures history == old(history) + if v == Aborted then [] else EventsOf(conn, msg)
    {
      if msg.path == "/org/freedesktop/DBus/Local" {
        if msg.member == "Disconnected" {
          return Handled;
        }
      }
      if msg.dest != BUS {
        return NotHandled;
      }
      var body;
      if msg.member == "Hello" {
        body := YourName(UniqueName(conn));
      } else if msg.member == "RequestName" {
        RegisterName(msg.arg, conn);
        body := PrimaryOwner;
      } else if msg.member == "ReleaseName" {
        var ok := UnregisterName(msg.arg, conn);
        if !ok {
          return Aborted;
        }
        body := NameReleased;
      } else {
        body := AnswerQuery(conn, msg);
      }
      sent := sent + [Answer(conn, msg.serial, body)];
      return Handled;
    }

    /** The methods that leave the owners as they are. */
    method AnswerQuery(conn: Conn, msg: Message) returns (body: Body)
      requires Valid() && msg.member !in {"Hello", "RequestName", "ReleaseName"}
      modifies this`names
      ensures Valid() && body == BusAnswer(history, conn, msg)
    {
      if msg.member == "NameHasOwner" {
        var serv := At(msg.arg);
        body := HasOwner(serv.Some?);
      } else if msg.member == "GetNameOwner" {
        var serv := At(msg.arg);
        body := if serv.Some? then OwnerIs(UniqueName(serv.value)) else NoMatch(msg.arg);
      } else if msg.member == "AddMatch" || msg.member == "StartServiceByName" {
        body := Done;
      } else if AsksCredential(msg.member) {
        var target := At(msg.arg);
        body := Credential(msg.member, target);
      } else {
        body := UnknownMethod(msg.member);
      }
    }

    /** do_bridge_msg: find does not put anything into the map. */
    method DoBridgeMsg(conn: Conn, msg: Message) returns (handled: bool)
      requires Valid()
      modifies this`sent
      ensures handled == (msg.dest != "" && Owner(history, msg.dest).Some?)
      ensures sent == old(sent) + if handled
                                  then [Forward(Owner(history, msg.dest).value, msg.(sender := UniqueName(conn)))]
                                  else []
    {
      if msg.dest != "" {
        var dconn := if msg.dest in names then names[msg.dest] else None;
        assert dconn == Look(names, msg.dest);
        if dconn.Some? {
          sent := sent + [Forward(dconn.value, msg.(sender := UniqueName(conn)))];
          return true;
        }
      }
      return false;
    }

    /** do_broadcast_msg: to every connection, the one it came from included. */
    method DoBroadcastMsg(conn: Conn, msg: Message) returns (handled: bool)
      requires Valid()
      modifies this`sent
      ensures handled == (msg.dest == "")
      ensures sent == old(sent) + if handled then ToAll(Alive(history), msg) else []
    {
      if msg.dest == "" {
        for i := 0 to |conns|
          invariant sent == old(sent) + ToAll(conns[..i], msg)
        {
          sent := sent + [Forward(conns[i], msg)];
          assert ToAll(conns[..i + 1], msg) == ToAll(conns[..i], msg) + [Forward(conns[i], msg)];
        }
        assert conns[..|conns|] == conns;
        return true;
      }
      return false;
    }

    /** filter_func for a connection of the server: its four callbacks in the order of their priorities. */
    method FilterFunc(conn: Conn, msg: Message) returns (v: Verdict)
      requires Valid() && conn in conns
      modifies this`names, this`sent, this`history
      ensures Valid()
      ensures v == if Trips(old(history), conn, msg) then Aborted else Handled
      ensures sent == old(sent) + if v == Aborted then [] else Routed(old(history), conn, msg)
      ensures history == old(history) + if v == Aborted then [] else EventsOf(conn, msg)
      ensures v == Handled ==> OwnersFollow(old(history), history, conn, msg)
      ensures v == Aborted ==> history == old(history)
    {
      MessageChangesOwners(history, conn, msg);
      v := DoServerMsg(conn, msg);
      if v != NotHandled {
        return;
      }
      assert history == old(history);
      var handled := DoBridgeMsg(conn, msg);
      if !handled {
        handled := DoBroadcastMsg(conn, msg);
      }
      if !handled {
        sent := sent + [Answer(conn, msg.serial, NoService(msg.dest))];
      }
      v := Handled;
    }
  }
}
