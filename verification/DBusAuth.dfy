/**
 The authentication of a D-Bus connection (wvdbusconn.cc, wvdbusserver.cc; D-Bus Specification, section
 "Authentication Protocol"): the two state machines, each at its end of two byte streams that may be cut into pieces
 anywhere. Both ends queue their messages until they are authorized.
 */
module DBusAuth {
  import opened Optional
  import opened Slices
  import opened Text
  import opened Decimals

  // ----- hexadecimal text (wvhex.cc) -----

  function HexDigit(d: nat): char
    requires d < 16
  {
    if d < 10 then ('0' as int + d) as char else ('a' as int + d - 10) as char
  }

  function HexEncode(s: string): (r: string)
    ensures |r| == 2 * |s| && forall k :: 0 <= k < |r| ==> IsHex(r[k])
  {
    if s == [] then []
    else [HexDigit(s[0] as int / 16 % 16), HexDigit(s[0] as int % 16)] + HexEncode(s[1..])
  }

  predicate IsHex(c: char) {
    '0' <= c <= '9' || 'a' <= c <= 'f' || 'A' <= c <= 'F'
  }

  function FromHex(c: char): (r: nat)
    requires IsHex(c)
    ensures r < 16
  {
    if c <= '9' then c as int - '0' as int
    else if c <= 'F' then c as int - 'A' as int + 10
    else c as int - 'a' as int + 10
  }

  /** The decoder skips white space, and stops at anything else that is not a digit. */
  function HexDecode(s: string, first: Option<nat>): string
    requires first.Some? ==> first.value < 16
  {
    if s == [] then []
    else if IsHex(s[0]) then
      match first
      case None => HexDecode(s[1..], Some(FromHex(s[0])))
      case Some(f) => [(16 * f + FromHex(s[0])) as char] + HexDecode(s[1..], None)
    else if IsSpace(s[0]) then HexDecode(s[1..], first)
    else []
  }

  lemma DigitComesBack(d: nat)
    requires d < 16
    ensures IsHex(HexDigit(d)) && FromHex(HexDigit(d)) == d
  {
  }

  /** Two digits make their byte again. */
  lemma ByteComesBack(c: char, rest: string)
    requires c as int < 256
    ensures HexDecode([HexDigit(c as int / 16 % 16), HexDigit(c as int % 16)] + rest, None)
            == [c] + HexDecode(rest, None)
  {
    var high, low := c as int / 16, c as int % 16;
    var s := [HexDigit(high), HexDigit(low)] + rest;
    DigitComesBack(high);
    DigitComesBack(low);
    assert s[1..][0] == HexDigit(low) && s[1..][1..] == rest;
    assert HexDecode(s, None) == HexDecode(s[1..], Some(high));
    assert 16 * high + low == c as int;
  }

  lemma {:induction false} HexRoundTrip(s: string)
    requires forall k :: 0 <= k < |s| ==> s[k] as int < 256
    ensures HexDecode(HexEncode(s), None) == s
  {
    if s != [] {
      ByteComesBack(s[0], HexEncode(s[1..]));
      HexRoundTrip(s[1..]);
      assert s == [s[0]] + s[1..];
    }
  }

  // ----- lines and words -----

  predicate IsSeparator(c: char) {
    c == ' ' || c == '\t' || c == '\r' || c == '\n'
  }

  /** getline(0), as a C string without the white space around it. */
  function Line(unread: string): Option<string> {
    var n := Span(unread, c => c == '\n');
    if n == |unread| then None else Some(Cleaned(unread[..n]))
  }

  function LineSize(unread: string): (r: nat)
    ensures r <= |unread| && (Line(unread).Some? ==> r > 0)
  {
    var n := Span(unread, c => c == '\n');
    if n == |unread| then 0 else n + 1
  }

  /** The first word that popstr gives for a split line, and the rest of the line. */
  function Word(line: string): string {
    line[..Span(line, IsSeparator)]
  }

  function AfterWord(line: string): string {
    var rest := line[Span(line, IsSeparator)..];
    rest[Span(rest, c => !IsSeparator(c))..]
  }

  lemma FirstWord(word: string, rest: string)
    requires forall k :: 0 <= k < |word| ==> !IsSeparator(word[k])
    requires rest != [] ==> !IsSeparator(rest[0])
    ensures Word(word + " " + rest) == word && AfterWord(word + " " + rest) == rest
    ensures Word(word) == word
  {
    var line := word + " " + rest;
    SpanIs(line, |word|, IsSeparator);
    SpanIs(word, |word|, IsSeparator);
    var tail := line[|word|..];
    assert tail == " " + rest && line[..|word|] == word;
    SpanIs(tail, 1, c => !IsSeparator(c));
    assert tail[1..] == rest;
  }

  // ----- what the two ends say -----

  const OK := "OK f00f\r\n"
  const BEGIN := "BEGIN\r\n"

  function AuthLine(uid: nat): string {
    "AUTH" + " " + ("EXTERNAL" + " " + HexEncode(Decimal(uid)))
  }

  function Request(uid: nat): string {
    ['\0'] + (AuthLine(uid) + "\r\n")
  }

  /** One of the two is the start of the other. */
  predicate Agree(s: string, t: string) {
    s <= t || t <= s
  }

  /** A line that has no line feed or zero, and no white space at its ends, comes through getline. */
  lemma LineComesThrough(line: string, unread: string)
    requires Agree(line + "\r\n", unread) && IsTrimmed(line)
    requires forall k :: 0 <= k < |line| ==> line[k] != '\n' && line[k] != '\0'
    ensures Line(unread) == if line + "\r\n" <= unread then Some(line) else None
    ensures LineSize(unread) == if line + "\r\n" <= unread then |line| + 2 else 0
  {
    var sent := line + "\r\n";
    if sent <= unread {
      assert forall k :: 0 <= k < |sent| ==> sent[k] == unread[k];
      SpanIs(unread, |line| + 1, c => c == '\n');
      var text := unread[..|line| + 1];
      assert text == line + ['\r'];
      SpanIs(text, |line| + 1, c => c == '\0');
      assert text[..|line| + 1] == text;
      TrimmedBefore(line, '\r');
    } else {
      assert unread <= sent && |unread| < |sent|;
      SpanIs(unread, |unread|, c => c == '\n');
    }
  }

  lemma AuthLineComesThrough(uid: nat, unread: string)
    requires Agree(AuthLine(uid) + "\r\n", unread)
    ensures Line(unread) == if AuthLine(uid) + "\r\n" <= unread then Some(AuthLine(uid)) else None
    ensures LineSize(unread) == if AuthLine(uid) + "\r\n" <= unread then |AuthLine(uid)| + 2 else 0
  {
    var line, hex := AuthLine(uid), HexEncode(Decimal(uid));
    assert line == "AUTH EXTERNAL " + hex;
    assert line[|line| - 1] == hex[|hex| - 1] && IsHex(hex[|hex| - 1]);
    forall k | 0 <= k < |line|
      ensures line[k] != '\n' && line[k] != '\0'
    {
      if k >= 14 {
        assert line[k] == hex[k - 14] && IsHex(hex[k - 14]);
      }
    }
    LineComesThrough(line, unread);
  }

  /** The server reads the user number that the client wrote. */
  lemma AuthLineRead(uid: nat)
    ensures var line := AuthLine(uid);
            && Word(line) == "AUTH" && Word(AfterWord(line)) == "EXTERNAL"
            && UidOf(Word(AfterWord(AfterWord(line)))) == Some(uid)
  {
    var hex := HexEncode(Decimal(uid));
    assert IsHex(hex[0]);
    FirstWord("AUTH", "EXTERNAL" + " " + hex);
    FirstWord("EXTERNAL", hex);
    HexIsOneWord(Decimal(uid));
    UidComesBack(uid);
  }

  lemma HexIsOneWord(s: string)
    ensures Word(HexEncode(s)) == HexEncode(s)
  {
    var hex := HexEncode(s);
    forall k | 0 <= k < |hex|
      ensures !IsSeparator(hex[k])
    {
      assert IsHex(hex[k]);
    }
    FirstWord(hex, "");
  }

  lemma UidComesBack(uid: nat)
    ensures UidOf(HexEncode(Decimal(uid))) == Some(uid)
  {
    var digits := Decimal(uid);
    HexRoundTrip(digits);
    AtoiOfDecimal(uid, "");
    assert digits + "" == digits;
  }

  /** The user number that the third word of AUTH gives, if it decodes to anything. */
  function UidOf(word: string): Option<nat> {
    var uid := HexDecode(word, None);
    if uid == [] then None else Some(Atoi(uid, 0))
  }

  // ----- what any client has to say -----

  /** One line as the stream has it, up to its line feed. */
  predicate IsLine(raw: string) {
    raw != "" && raw[|raw| - 1] == '\n' && forall k :: 0 <= k < |raw| - 1 ==> raw[k] != '\n'
  }

  function LineText(raw: string): string
    requires raw != ""
  {
    Cleaned(raw[..|raw| - 1])
  }

  predicate AsksExternal(line: string) {
    SameName(Word(line), "AUTH") && SameName(Word(AfterWord(line)), "EXTERNAL")
  }

  predicate AsksOther(line: string) {
    SameName(Word(line), "AUTH") && !SameName(Word(AfterWord(line)), "EXTERNAL")
  }

  ghost predicate Refused(raw: string) {
    IsLine(raw) && AsksOther(LineText(raw))
  }

  /** The lines that bring the server into this state, after the zero byte: refused ones, and then AUTH EXTERNAL. */
  ghost predicate Brings(state: State, lines: seq<string>) {
    match state
    case NullWait => lines == []
    case AuthWait => forall k :: 0 <= k < |lines| ==> Refused(lines[k])
    case BeginWait =>
      && lines != [] && IsLine(lines[|lines| - 1]) && AsksExternal(LineText(lines[|lines| - 1]))
      && forall k :: 0 <= k < |lines| - 1 ==> Refused(lines[k])
  }

  /** The lines that get a client authorized: the last one is BEGIN. */
  ghost predicate Admits(lines: seq<string>) {
    && lines != [] && Brings(BeginWait, lines[..|lines| - 1])
    && IsLine(lines[|lines| - 1]) && SameName(Word(LineText(lines[|lines| - 1])), "BEGIN")
  }

  /** So many refusals. */
  function Refusals(n: nat): string {
    if n == 0 then "" else Refusals(n - 1) + "REJECTED EXTERNAL\r\n"
  }

  /** What the server has answered when these lines have brought it into a state: a refusal for each line but the AUTH
      EXTERNAL one, and OK for that. */
  function Answers(state: State, lines: seq<string>): string {
    match state
    case NullWait => ""
    case AuthWait => Refusals(|lines|)
    case BeginWait => if lines == [] then "" else Refusals(|lines| - 1) + "OK f00f\r\n"
  }

  function Flat(lines: seq<string>): string {
    if lines == [] then "" else Flat(lines[..|lines| - 1]) + lines[|lines| - 1]
  }

  /** The bytes that the server has read when it is in this state. */
  function Stream(state: State, lines: seq<string>): string {
    if state == NullWait then "" else ['\0'] + Flat(lines)
  }

  /** What one more line makes of it. */
  lemma OneMoreLine(state: State, lines: seq<string>, raw: string)
    requires state != NullWait && Brings(state, lines) && IsLine(raw)
    ensures Stream(AuthWait, lines + [raw]) == Stream(AuthWait, lines) + raw
    ensures state == AuthWait && AsksOther(LineText(raw)) ==> Brings(AuthWait, lines + [raw])
    ensures state == AuthWait && AsksExternal(LineText(raw)) ==> Brings(BeginWait, lines + [raw])
    ensures state == BeginWait && SameName(Word(LineText(raw)), "BEGIN") ==> Admits(lines + [raw])
  {
    assert (lines + [raw])[..|lines|] == lines;
  }

  lemma OneMoreAnswer(lines: seq<string>, raw: string)
    ensures Answers(AuthWait, lines + [raw]) == Answers(AuthWait, lines) + "REJECTED EXTERNAL\r\n"
    ensures Answers(BeginWait, lines + [raw]) == Answers(AuthWait, lines) + "OK f00f\r\n"
    ensures (lines + [raw])[..|lines|] == lines
  {
  }

  lemma LineIsLine(unread: string)
    requires Line(unread).Some?
    ensures var raw := unread[..LineSize(unread)]; IsLine(raw) && LineText(raw) == Line(unread).value
  {
    SpanStops(unread, c => c == '\n');
    var n := Span(unread, c => c == '\n');
    assert unread[..n + 1][..n] == unread[..n];
  }

  // ----- a connection -----

  datatype State = NullWait | AuthWait | BeginWait

  /** How much of the client's bytes the server has read when it is in this state. */
  function TakenIn(state: State, peer: nat): nat {
    match state case NullWait => 0 case AuthWait => 1 case BeginWait => |Request(peer)|
  }

  /** Where the server goes from a state with these bytes. */
  function StateAfter(state: State, arrived: string, peer: nat): State {
    if state == BeginWait || Request(peer) <= arrived then BeginWait else if arrived == "" then NullWait else AuthWait
  }

  /** What the server finds in the client's bytes, at the places where it reads. */
  lemma ServerReads(arrived: string, peer: nat)
    requires Agree(Request(peer) + BEGIN, arrived)
    ensures arrived != "" ==>
              && arrived[0] == '\0'
              && Line(arrived[1..]) == (if Request(peer) <= arrived then Some(AuthLine(peer)) else None)
              && LineSize(arrived[1..]) == (if Request(peer) <= arrived then |Request(peer)| - 1 else 0)
    ensures |Request(peer)| <= |arrived| ==>
              var unread := arrived[|Request(peer)|..];
              && Line(unread) == (if Request(peer) + BEGIN <= arrived then Some("BEGIN") else None)
              && Word("BEGIN") == "BEGIN"
              && LineSize(unread) == (if Request(peer) + BEGIN <= arrived then |BEGIN| else 0)
  {
    if arrived != "" {
      RequestRead(arrived, peer);
    }
    if |Request(peer)| <= |arrived| {
      BehindHead(Request(peer), BEGIN, arrived);
      BeginRead(arrived[|Request(peer)|..]);
    }
  }

  lemma RequestRead(arrived: string, peer: nat)
    requires Agree(Request(peer) + BEGIN, arrived) && arrived != ""
    ensures arrived[0] == '\0'
    ensures Line(arrived[1..]) == if Request(peer) <= arrived then Some(AuthLine(peer)) else None
    ensures LineSize(arrived[1..]) == if Request(peer) <= arrived then |Request(peer)| - 1 else 0
  {
    var line := AuthLine(peer) + "\r\n";
    assert ['\0'] + (line + BEGIN) == Request(peer) + BEGIN;
    BehindHead(['\0'], line + BEGIN, arrived);
    BehindHead(['\0'], line, arrived);
    AuthLineComesThrough(peer, arrived[1..]);
  }

  lemma BeginRead(unread: string)
    requires Agree(BEGIN, unread)
    ensures Word("BEGIN") == "BEGIN"
    ensures Line(unread) == if BEGIN <= unread then Some("BEGIN") else None
    ensures LineSize(unread) == if BEGIN <= unread then |BEGIN| else 0
  {
    assert BEGIN == "BEGIN" + "\r\n";
    LineComesThrough("BEGIN", unread);
    WordOfBegin();
  }

  lemma WordOfBegin()
    ensures Word("BEGIN") == "BEGIN"
  {
    SpanIs("BEGIN", 5, IsSeparator);
    assert "BEGIN"[..5] == "BEGIN";
  }

  /** What arrives behind something that has arrived. */
  lemma BehindHead(head: string, tail: string, arrived: string)
    requires |head| <= |arrived| && Agree(head + tail, arrived)
    ensures arrived[..|head|] == head && Agree(tail, arrived[|head|..])
    ensures tail <= arrived[|head|..] <==> head + tail <= arrived
  {
    var all := head + tail;
    assert forall k :: 0 <= k < |all| && k < |arrived| ==> all[k] == arrived[k];
    assert all[..|head|] == head && all[|head|..] == tail;
    if tail <= arrived[|head|..] {
      assert head + tail <= arrived;
    }
  }

  /** strncasecmp over the length of the second string finds no difference. */
  predicate SameStart(s: string, t: string) {
    SameName(s[..if |s| < |t| then |s| else |t|], t)
  }

  lemma OkComesThrough(arrived: string)
    requires Agree(OK, arrived)
    ensures SameStart("OK f00f", "OK ")
    ensures Line(arrived) == (if OK <= arrived then Some("OK f00f") else None)
    ensures LineSize(arrived) == if OK <= arrived then |OK| else 0
  {
    assert OK == "OK f00f" + "\r\n";
    LineComesThrough("OK f00f", arrived);
    assert "OK f00f"[..3] == "OK ";
  }

  class WvDBusConn {
    const client: bool
    const uid: nat

    var authorized: bool
    var failed: bool
    var outQueue: string
    var inQueue: string

    /** The stream: everything written, everything that has arrived, and how much of that was read. */
    var written: string
    var arrived: string
    var taken: nat

    var sentRequest: bool
    var state: State
    var clientUid: Option<nat>

    /** All the bytes of the messages that were given to send. */
    ghost var said: string

    ghost predicate Common()
      reads this
    {
      && !failed && taken <= |arrived|
      && outQueue == (if authorized then "" else said)
      && (!authorized ==> inQueue == "")
    }

    /** After the handshake, which was this long, everything read is in the queue of messages. */
    ghost predicate ReadsMessages(handshake: nat)
      reads this
    {
      handshake <= taken <= |arrived| && inQueue == arrived[handshake..taken]
    }

    ghost predicate ClientValid()
      reads this
    {
      && client && Common() && sentRequest && Agree(OK, arrived)
      && written == (if authorized then Request(uid) + BEGIN + said else Request(uid))
      && if authorized then OK <= arrived && ReadsMessages(|OK|) else taken == 0
    }

    ghost predicate ServerValid(peer: nat)
      reads this
    {
      && !client && Common() && Agree(Request(peer) + BEGIN, arrived)
      && written == (if authorized then OK + said else if state == BeginWait then OK else "")
      && (authorized || state == BeginWait ==> clientUid == Some(peer) && state == BeginWait)
      && if authorized then ReadsMessages(|Request(peer) + BEGIN|)
         else taken == TakenIn(state, peer)
    }

    /** init, for a client: hello is what send_hello sends. */
    constructor Client(uid: nat, hello: string)
      ensures ClientValid() && this.uid == uid && !authorized && said == hello && arrived == ""
    {
      this.client, this.uid := true, uid;
      authorized, failed, outQueue, inQueue := false, false, hello, "";
      written, arrived, taken := "", "", 0;
      sentRequest, state, clientUid := false, NullWait, None;
      said := hello;
      new;
      TryAuth(0);
    }

    /** init, for a server. */
    constructor Server(ghost peer: nat)
      ensures ServerValid(peer) && !authorized && said == "" && arrived == ""
    {
      this.client, this.uid := false, 0;
      authorized, failed, outQueue, inQueue := false, false, "", "";
      written, arrived, taken := "", "", 0;
      sentRequest, state, clientUid := false, NullWait, None;
      said := "";
      new;
      TryAuth(peer);
    }

    /** in. */
    method In() returns (line: Option<string>)
      requires taken <= |arrived|
      modifies this`taken
      ensures line == Line(old(arrived[taken..])) && taken == old(taken) + LineSize(old(arrived[taken..]))
      ensures taken <= |arrived|
    {
      line := Line(arrived[taken..]);
      taken := taken + LineSize(arrived[taken..]);
    }

    /** write, and out. */
    method Write(s: string)
      modifies this`written
      ensures written == old(written) + s
    {
      written := written + s;
    }

    ghost predicate ClientMayAuthorize()
      reads this
    {
      && client && Common() && !authorized
      && if sentRequest then ClientValid() else written == arrived == "" && taken == 0
    }

    /** WvDBusClientAuth::authorize. */
    method ClientAuthorize() returns (done: bool)
      requires ClientMayAuthorize()
      modifies this`written, this`taken, this`sentRequest, this`failed
      ensures sentRequest && !failed
      ensures done == (old(sentRequest) && OK <= arrived)
      ensures taken == if done then |OK| else 0
      ensures written == if done then Request(uid) + BEGIN else Request(uid)
    {
      if !sentRequest {
        SendRequest();
        done := false;
      } else {
        OkComesThrough(arrived);
        assert arrived[taken..] == arrived;
        done := ReadOk();
      }
    }

    method SendRequest()
      requires written == ""
      modifies this`written, this`sentRequest
      ensures sentRequest && written == Request(uid)
    {
      Write(['\0']);
      Write(AuthLine(uid) + "\r\n");
      sentRequest := true;
    }

    /** The part of authorize after the request, for any server: only a line that starts with OK is an answer. */
    method ReadOk() returns (done: bool)
      requires taken <= |arrived| && !failed
      modifies this`written, this`taken, this`failed
      ensures var unread := old(arrived[taken..]);
              && taken == old(taken) + LineSize(unread)
              && done == (Line(unread).Some? && SameStart(Line(unread).value, "OK "))
              && failed == (Line(unread).Some? && !SameStart(Line(unread).value, "OK "))
      ensures written == if done then old(written) + BEGIN else old(written)
    {
      var line := In();
      if line.Some? {
        if SameStart(line.value, "OK ") {
          Write(BEGIN);
          return true;
        } else {
          failed := true;
        }
      }
      return false;
    }

    /** What was read so far is the zero byte and lines that bring the server into its state, and what was written are
        the answers to them. */
    ghost predicate Hears(lines: seq<string>)
      reads this
    {
      && taken <= |arrived| && Brings(state, lines) && arrived[..taken] == Stream(state, lines)
      && written == Answers(state, lines)
    }

    /** What was read are lines that get the client authorized, and these are the answers to them. */
    ghost predicate Admitted(lines: seq<string>, answers: string)
      reads this
    {
      && taken <= |arrived| && Admits(lines) && arrived[..taken] == Stream(AuthWait, lines)
      && answers == Answers(BeginWait, lines[..|lines| - 1])
    }

    /** What authorize has done from a state and a place in the stream: nothing before there are bytes, a failure
        without the zero byte, and else whatever the next line asks for, if it is there. */
    ghost predicate WentOn(was: State, from: nat, written': string, clientUid': Option<nat>, done: bool)
      reads this
    {
      if was == NullWait && (from >= |arrived| || arrived[from] != '\0') then
        && !done && failed == (from < |arrived|) && state == was && written == written'
        && taken == if failed then from + 1 else from
      else
        var at, mid := if was == NullWait then from + 1 else from, if was == NullWait then AuthWait else was;
        && at <= |arrived| && taken == at + LineSize(arrived[at..])
        && var line := Line(arrived[at..]);
           if line.Some? then Obeyed(line.value, mid, written', clientUid', done)
           else !done && !failed && state == mid && written == written' && clientUid == clientUid'
    }

    /** WvDBusServerAuth::authorize, for any client. */
    method ServerAuthorize() returns (done: bool)
      requires taken <= |arrived| && !failed
      modifies this`written, this`taken, this`state, this`clientUid, this`failed
      ensures WentOn(old(state), old(taken), old(written), old(clientUid), done)
      ensures taken <= |arrived|
    {
      if state == NullWait {
        var more := TakeNull();
        if !more {
          return false;
        }
      }
      done := ReadCommand();
    }

    lemma ObeyedStates(line: string, was: State, written': string, clientUid': Option<nat>, done: bool)
      requires Obeyed(line, was, written', clientUid', done) && was != NullWait
      ensures done ==> was == BeginWait && SameName(Word(line), "BEGIN")
      ensures !done && !failed ==>
                && was == AuthWait
                && if AsksOther(line) then state == AuthWait else state == BeginWait && AsksExternal(line)
    {
    }

    /** A line is heard, from a place up to which all is well. */
    lemma LineHears(mid: State, at: nat, written': string, clientUid': Option<nat>, done: bool, lines: seq<string>)
      returns (lines': seq<string>)
      requires mid != NullWait && Brings(mid, lines) && at <= |arrived| && arrived[..at] == Stream(AuthWait, lines)
      requires Line(arrived[at..]).Some? && taken == at + LineSize(arrived[at..])
      requires Obeyed(Line(arrived[at..]).value, mid, written', clientUid', done) && written' == Answers(mid, lines)
      ensures taken <= |arrived| && if done then Admitted(lines', written) else failed || Hears(lines')
    {
      var unread := arrived[at..];
      var raw := unread[..LineSize(unread)];
      ObeyedStates(Line(unread).value, mid, written', clientUid', done);
      LineIsLine(unread);
      OneMoreLine(mid, lines, raw);
      OneMoreAnswer(lines, raw);
      lines' := lines + [raw];
      LongerFront(arrived, at, raw, taken);
    }

    /** It is done only when a zero byte, an AUTH EXTERNAL line and a BEGIN line were read, with nothing but refused
        AUTH lines in between. */
    lemma WentOnHears(was: State, from: nat, written': string, clientUid': Option<nat>, done: bool, lines: seq<string>)
      returns (lines': seq<string>)
      requires WentOn(was, from, written', clientUid', done)
      requires from <= |arrived| && Brings(was, lines) && arrived[..from] == Stream(was, lines)
      requires written' == Answers(was, lines)
      ensures taken <= |arrived| && if done then Admitted(lines', written) else failed || Hears(lines')
    {
      lines' := lines;
      if was != NullWait || (from < |arrived| && arrived[from] == '\0') {
        var at, mid := if was == NullWait then from + 1 else from, if was == NullWait then AuthWait else was;
        assert was == NullWait ==> arrived[..at] == ['\0'];
        if Line(arrived[at..]).Some? {
          lines' := LineHears(mid, at, written', clientUid', done, lines);
        }
      }
    }

    lemma ObeyedRequest(peer: nat, clientUid': Option<nat>, done: bool)
      requires Obeyed(AuthLine(peer), AuthWait, "", clientUid', done)
      ensures !done && !failed && state == BeginWait && written == OK && clientUid == Some(peer)
    {
      AuthLineRead(peer);
    }

    lemma ObeyedBegin(written': string, clientUid': Option<nat>, done: bool)
      requires Obeyed("BEGIN", BeginWait, written', clientUid', done)
      ensures done && !failed && state == BeginWait && written == written' && clientUid == clientUid'
    {
      WordOfBegin();
    }

    /** For the client of this project the server goes through its three states as the bytes come in. */
    lemma HonestWentOn(peer: nat, was: State, from: nat, written': string, clientUid': Option<nat>, done: bool)
      requires WentOn(was, from, written', clientUid', done) && from == TakenIn(was, peer) <= |arrived|
      requires Agree(Request(peer) + BEGIN, arrived)
      requires was == BeginWait ==> written' == OK && clientUid' == Some(peer)
      requires was != BeginWait ==> written' == ""
      ensures Honest(peer, was, done)
    {
      if was == BeginWait {
        HonestBegin(peer, written', clientUid', done);
      } else {
        HonestRequest(peer, was, from, clientUid', done);
      }
    }

    ghost predicate Honest(peer: nat, was: State, done: bool)
      reads this
    {
      && !failed && done == (was == BeginWait && Request(peer) + BEGIN <= arrived)
      && state == StateAfter(was, arrived, peer)
      && taken == (if done then |Request(peer) + BEGIN| else TakenIn(state, peer))
      && written == (if state == BeginWait then OK else "") && (state == BeginWait ==> clientUid == Some(peer))
    }

    lemma HonestRequest(peer: nat, was: State, from: nat, clientUid': Option<nat>, done: bool)
      requires was != BeginWait && WentOn(was, from, "", clientUid', done) && from == TakenIn(was, peer) <= |arrived|
      requires Agree(Request(peer) + BEGIN, arrived)
      ensures Honest(peer, was, done)
    {
      if arrived != "" {
        RequestRead(arrived, peer);
        if Request(peer) <= arrived {
          ObeyedRequest(peer, clientUid', done);
        }
      }
    }

    lemma HonestBegin(peer: nat, written': string, clientUid': Option<nat>, done: bool)
      requires WentOn(BeginWait, |Request(peer)|, written', clientUid', done) && |Request(peer)| <= |arrived|
      requires Agree(Request(peer) + BEGIN, arrived) && written' == OK && clientUid' == Some(peer)
      ensures Honest(peer, BeginWait, done)
    {
      ServerReads(arrived, peer);
      if Request(peer) + BEGIN <= arrived {
        ObeyedBegin(written', clientUid', done);
      }
    }

    method AuthorizeHonest(ghost peer: nat) returns (done: bool)
      requires ServerValid(peer) && !authorized
      modifies this`written, this`taken, this`state, this`clientUid, this`failed
      ensures Honest(peer, old(state), done)
    {
      ghost var was, from, written', clientUid' := state, taken, written, clientUid;
      done := ServerAuthorize();
      HonestWentOn(peer, was, from, written', clientUid', done);
    }

    /** authorize, as seen by a server that does not know its client. */
    method AuthorizeAnyone(ghost lines: seq<string>) returns (done: bool, ghost lines': seq<string>)
      requires Hears(lines) && !failed
      modifies this`written, this`taken, this`state, this`clientUid, this`failed
      ensures taken <= |arrived| && if done then Admitted(lines', written) else failed || Hears(lines')
    {
      ghost var was, from, written', clientUid' := state, taken, written, clientUid;
      done := ServerAuthorize();
      lines' := WentOnHears(was, from, written', clientUid', done, lines);
    }

    /** A server with any client, before there is anything to send: it has heard what its state stands for, or has
        failed, or was authorized by what it read. */
    ghost predicate Served(lines: seq<string>)
      reads this
    {
      && taken <= |arrived| && outQueue == (if authorized then "" else said)
      && said == "" && if authorized then Admitted(lines, written) else failed || Hears(lines)
    }

    /** More bytes arrive, and the server looks at them. */
    method Hear(piece: string, ghost lines: seq<string>) returns (ghost lines': seq<string>)
      requires Served(lines) && !authorized && !failed
      modifies this
      ensures Served(lines') && arrived == old(arrived) + piece
    {
      Receive(piece, lines);
      lines' := HearArrived(lines);
    }

    /** What the server makes of the bytes that have arrived. */
    method HearArrived(ghost lines: seq<string>) returns (ghost lines': seq<string>)
      requires Hears(lines) && !authorized && !failed && outQueue == said == ""
      modifies this`written, this`taken, this`state, this`clientUid, this`failed, this`outQueue, this`authorized
      ensures Served(lines')
    {
      var done;
      done, lines' := AuthorizeAnyone(lines);
      if done {
        SendNothing(lines');
      }
    }

    method Receive(piece: string, ghost lines: seq<string>)
      requires Hears(lines)
      modifies this`arrived
      ensures Hears(lines) && arrived == old(arrived) + piece
    {
      ghost var before := arrived[..taken];
      arrived := arrived + piece;
      assert arrived[..taken] == before;
    }

    /** The end of try_auth with an empty queue. */
    method SendNothing(ghost lines: seq<string>)
      requires taken <= |arrived| && Admitted(lines, written) && outQueue == said == ""
      modifies this`written, this`outQueue, this`authorized
      ensures Served(lines)
    {
      NothingAdded(written, said);
      SendQueued();
    }

    /** The zero byte at the start. After any other byte the source asks for a line all the same; but the error has
        closed the stream, and nothing is in its buffer (the byte came by a direct read of one), so that there is no
        line. */
    method TakeNull() returns (more: bool)
      requires state == NullWait && taken <= |arrived| && !failed
      modifies this`taken, this`state, this`failed
      ensures more == (old(taken) < |arrived| && arrived[old(taken)] == '\0')
      ensures taken == if old(taken) < |arrived| then old(taken) + 1 else old(taken)
      ensures state == (if more then AuthWait else NullWait) && failed == (!more && old(taken) < |arrived|)
    {
      if taken < |arrived| {
        taken := taken + 1;
        if arrived[taken - 1] == '\0' {
          state := AuthWait;
        } else {
          failed := true;
          return false;
        }
      } else {
        return false;
      }
      return true;
    }

    /** The part of authorize that reads a line. */
    method ReadCommand() returns (done: bool)
      requires state != NullWait && taken <= |arrived| && !failed
      modifies this`written, this`taken, this`state, this`clientUid, this`failed
      ensures var unread := old(arrived[taken..]);
              && taken == old(taken) + LineSize(unread) <= |arrived|
              && if Line(unread).None? then
                   !done && !failed && state == old(state) && written == old(written) && clientUid == old(clientUid)
                 else
                   Obeyed(Line(unread).value, old(state), old(written), old(clientUid), done)
    {
      var line := In();
      if line.None? {
        return false;
      }
      done := Obey(line.value);
    }

    /** The outcome of a line: what has become of the state, the user and the answer. */
    ghost predicate Obeyed(line: string, was: State, written': string, clientUid': Option<nat>, done: bool)
      reads this
    {
      && done == (was == BeginWait && SameName(Word(line), "BEGIN"))
      && (was == BeginWait ==> failed == !done && state == was && written == written' && clientUid == clientUid')
      && (was == AuthWait ==>
            if !SameName(Word(line), "AUTH") then failed && state == was && written == written'
            else if AsksOther(line) then !failed && state == was && written == written' + "REJECTED EXTERNAL\r\n"
            else
              && !failed && state == BeginWait && written == written' + OK
              && var uid := UidOf(Word(AfterWord(AfterWord(line)))); clientUid == if uid.Some? then uid else clientUid')
    }

    /** What the server does about a line. */
    method Obey(line: string) returns (done: bool)
      requires !failed && state != NullWait
      modifies this`written, this`state, this`clientUid, this`failed
      ensures Obeyed(line, old(state), old(written), old(clientUid), done)
    {
      var cmd := Word(line);
      if state == AuthWait {
        if SameName(cmd, "AUTH") {
          if SameName(Word(AfterWord(line)), "EXTERNAL") {
            var uid := UidOf(Word(AfterWord(AfterWord(line))));
            if uid.Some? {
              clientUid := uid;
            }
            state := BeginWait;
            Write(OK);
          } else {
            Write("REJECTED EXTERNAL\r\n");
          }
        } else {
          failed := true;
        }
      } else {
        if SameName(cmd, "BEGIN") {
          return true;
        }
        failed := true;
      }
      return false;
    }

    /** try_auth. */
    method TryAuth(ghost peer: nat)
      requires if client then ClientMayAuthorize() else ServerValid(peer) && !authorized
      modifies this`written, this`taken, this`sentRequest, this`state, this`clientUid, this`failed,
               this`outQueue, this`authorized
      ensures if client then ClientValid() else ServerValid(peer)
      ensures client ==> authorized == (old(sentRequest) && OK <= arrived)
      ensures !client ==> authorized == (old(state) == BeginWait && Request(peer) + BEGIN <= arrived)
      ensures !client ==> state == StateAfter(old(state), arrived, peer)
      ensures old(taken) <= taken
    {
      if client {
        TryClientAuth();
      } else {
        TryServerAuth(peer);
      }
    }

    method TryClientAuth()
      requires ClientMayAuthorize()
      modifies this`written, this`taken, this`sentRequest, this`failed, this`outQueue, this`authorized
      ensures ClientValid() && authorized == (old(sentRequest) && OK <= arrived)
    {
      var done := ClientAuthorize();
      if done {
        SendQueued();
      }
    }

    method TryServerAuth(ghost peer: nat)
      requires ServerValid(peer) && !authorized
      modifies this`written, this`taken, this`state, this`clientUid, this`failed, this`outQueue, this`authorized
      ensures ServerValid(peer) && authorized == (old(state) == BeginWait && Request(peer) + BEGIN <= arrived)
      ensures state == StateAfter(old(state), arrived, peer) && old(taken) <= taken
    {
      var done := AuthorizeHonest(peer);
      if done {
        SendQueued();
      }
    }

    /** The end of try_auth: from now on messages are written at once. */
    method SendQueued()
      requires outQueue == said
      modifies this`written, this`outQueue, this`authorized
      ensures authorized && outQueue == "" && written == old(written) + said
    {
      if outQueue != "" {
        Write(outQueue);
        outQueue := "";
      }
      authorized := true;
    }

    /** send: the message is queued, and the queue is written if the connection is authorized. */
    method Send(msg: string, ghost peer: nat)
      requires if client then ClientValid() else ServerValid(peer)
      modifies this`outQueue, this`written, this`said
      ensures if client then ClientValid() else ServerValid(peer)
      ensures said == old(said) + msg
    {
      Joined(if client then Request(uid) + BEGIN else OK, said, msg);
      outQueue := outQueue + msg;
      said := said + msg;
      if authorized {
        assert outQueue == msg;
        Write(outQueue);
        outQueue := "";
      }
    }

    /** The part of post_select about the handshake and reading: amount is what read happens to deliver. */
    method PostSelect(amount: nat, ghost peer: nat)
      requires if client then ClientValid() else ServerValid(peer)
      modifies this`written, this`taken, this`sentRequest, this`state, this`clientUid, this`failed,
               this`outQueue, this`authorized, this`inQueue
      ensures if client then ClientValid() else ServerValid(peer)
      ensures old(authorized) ==> authorized
      ensures old(taken) <= taken && old(inQueue) <= inQueue
    {
      if !authorized {
        TryAuth(peer);
      }
      if authorized {
        ReadMessages(amount, if client then |OK| else |Request(peer) + BEGIN|);
      }
    }

    method ReadMessages(amount: nat, ghost handshake: nat)
      requires ReadsMessages(handshake)
      modifies this`inQueue, this`taken
      ensures ReadsMessages(handshake) && old(taken) <= taken && old(inQueue) <= inQueue
      ensures amount >= |arrived| - old(taken) ==> taken == |arrived|
    {
      var n := if amount <= |arrived| - taken then amount else |arrived| - taken;
      inQueue := inQueue + arrived[taken..taken + n];
      taken := taken + n;
    }
  }

  // ----- the server and any client -----

  /** A stream in pieces. */
  function Whole(pieces: seq<string>, n: nat): string
    requires n <= |pieces|
  {
    if n == 0 then "" else Whole(pieces, n - 1) + pieces[n - 1]
  }

  /** The server with any client at all, whose bytes arrive in these pieces: it is authorized only if the stream starts
      with a zero byte, refused AUTH lines, an AUTH EXTERNAL line and a BEGIN line; and its answers are one refusal for
      each refused line, and OK. */
  method Serve(pieces: seq<string>) returns (accepted: bool, read: nat, answers: string)
    ensures read <= |Whole(pieces, |pieces|)|
    ensures accepted ==> exists lines :: && Admits(lines) && |lines| >= 2
                                         && Whole(pieces, |pieces|)[..read] == ['\0'] + Flat(lines)
                                         && answers == Refusals(|lines| - 2) + "OK f00f\r\n"
  {
    var conn := new WvDBusConn.Server(0);
    ghost var lines := HearAll(conn, pieces);
    accepted, read, answers := conn.authorized, conn.taken, conn.written;
    if accepted {
      ServedAdmits(conn, lines);
    }
    SlicesAgree(conn.arrived, Whole(pieces, |pieces|), read);
  }

  method HearAll(conn: WvDBusConn, pieces: seq<string>) returns (ghost lines: seq<string>)
    requires conn.arrived == "" && conn.Served([]) && !conn.authorized && !conn.failed
    modifies conn
    ensures conn.arrived <= Whole(pieces, |pieces|) && conn.Served(lines)
  {
    lines := [];
    var i := 0;
    while i < |pieces| && !conn.authorized && !conn.failed
      invariant i <= |pieces| && HasHeard(conn, pieces, i, lines)
    {
      lines := HearNext(conn, pieces, i, lines);
      i := i + 1;
    }
    WholeGrows(pieces, i, |pieces|);
  }

  /** The server has got the first n pieces. */
  ghost predicate HasHeard(conn: WvDBusConn, pieces: seq<string>, n: nat, lines: seq<string>)
    requires n <= |pieces|
    reads conn
  {
    conn.arrived == Whole(pieces, n) && conn.Served(lines)
  }

  method HearNext(conn: WvDBusConn, pieces: seq<string>, i: nat, ghost lines: seq<string>)
    returns (ghost lines': seq<string>)
    requires i < |pieces| && HasHeard(conn, pieces, i, lines) && !conn.authorized && !conn.failed
    modifies conn
    ensures HasHeard(conn, pieces, i + 1, lines')
  {
    lines' := conn.Hear(pieces[i], lines);
  }

  lemma SlicesAgree(s: string, t: string, n: nat)
    requires s <= t && n <= |s|
    ensures t[..n] == s[..n]
  {
  }

  lemma {:induction false} ServedAdmits(conn: WvDBusConn, lines: seq<string>)
    requires conn.Served(lines) && conn.authorized
    ensures Admits(lines) && |lines| >= 2 && conn.arrived[..conn.taken] == ['\0'] + Flat(lines)
    ensures conn.written == Refusals(|lines| - 2) + "OK f00f\r\n"
  {
    assert |lines[..|lines| - 1]| == |lines| - 1;
  }

  /** What the client of user 1000 writes. */
  lemma ExampleRequest()
    ensures Request(1000) == "\0AUTH EXTERNAL 31303030\r\n"
  {
    ExampleAuthLine();
  }

  lemma ExampleAuthLine()
    ensures AuthLine(1000) == "AUTH EXTERNAL 31303030"
  {
    DecimalOf1000();
    HexOfDigits("1000");
  }

  lemma DecimalOf1000()
    ensures Decimal(1000) == "1000"
  {
    assert Decimal(1) == "1" && Decimal(10) == "10";
    assert Decimal(100) == "100";
  }

  lemma {:induction false} HexOfDigits(s: string)
    requires s == "1000"
    ensures HexEncode(s) == "31303030"
  {
    assert s[1..] == "000" && s[2..] == "00" && s[3..] == "0" && s[4..] == "";
    assert s[1..][1..] == s[2..] && s[2..][1..] == s[3..] && s[3..][1..] == s[4..];
    assert HexEncode(s[4..]) == "" && HexEncode(s[3..]) == "30" && HexEncode(s[2..]) == "3030";
    assert HexEncode(s[1..]) == "303030";
  }

  lemma {:induction false} WholeGrows(pieces: seq<string>, m: nat, n: nat)
    requires m <= n <= |pieces|
    ensures Whole(pieces, m) <= Whole(pieces, n)
  {
    if m < n {
      WholeGrows(pieces, m, n - 1);
    }
  }

  // ----- the two ends together -----

  datatype Step =
    | ClientSends(msg: string)
    | ServerSends(msg: string)
    | ReachesServer(bytes: nat)
    | ReachesClient(bytes: nat)
    | ClientRuns(amount: nat)
    | ServerRuns(amount: nat)

  /** The first bytes of a stream, at least as many as before. */
  function More(written: string, arrived: string, bytes: nat): (r: string)
    requires arrived <= written
    ensures arrived <= r <= written
    ensures |arrived| + bytes >= |written| ==> r == written
  {
    if |arrived| + bytes >= |written| then written else written[..|arrived| + bytes]
  }

  class Session {
    const client: WvDBusConn
    const server: WvDBusConn
    const hello: string

    ghost predicate Valid()
      reads this, client, server
    {
      && client != server && client.ClientValid() && server.ServerValid(client.uid)
      && client.arrived <= server.written && server.arrived <= client.written
      && hello <= client.said
    }

    constructor (uid: nat, hello: string)
      ensures Valid() && this.hello == hello && client.uid == uid && fresh(client) && fresh(server)
      ensures client.said == hello && server.said == ""
    {
      client := new WvDBusConn.Client(uid, hello);
      server := new WvDBusConn.Server(uid);
      this.hello := hello;
    }

    method Take(step: Step)
      requires Valid()
      modifies client, server
      ensures Valid()
      ensures client.said == old(client.said) + SaidIn(step, true)
      ensures server.said == old(server.said) + SaidIn(step, false)
      ensures old(client.inQueue) <= client.inQueue && old(server.inQueue) <= server.inQueue
    {
      if step.ClientSends? || step.ReachesClient? || step.ClientRuns? {
        TakeClient(step);
      } else {
        TakeServer(step);
      }
    }

    method TakeClient(step: Step)
      requires Valid() && (step.ClientSends? || step.ReachesClient? || step.ClientRuns?)
      modifies client
      ensures Valid() && client.said == old(client.said) + SaidIn(step, true) && old(client.inQueue) <= client.inQueue
    {
      match step
      case ClientSends(msg) => SendToServer(msg);
      case ReachesClient(bytes) => ToClient(bytes);
      case ClientRuns(amount) => RunClient(amount);
    }

    method TakeServer(step: Step)
      requires Valid() && (step.ServerSends? || step.ReachesServer? || step.ServerRuns?)
      modifies server
      ensures Valid() && server.said == old(server.said) + SaidIn(step, false) && old(server.inQueue) <= server.inQueue
    {
      match step
      case ServerSends(msg) => server.Send(msg, client.uid);
      case ReachesServer(bytes) => ToServer(bytes);
      case ServerRuns(amount) => RunServer(amount);
    }

    method SendToServer(msg: string)
      requires Valid()
      modifies client
      ensures Valid() && client.said == old(client.said) + msg && client.inQueue == old(client.inQueue)
    {
      client.Send(msg, 0);
    }

    method RunClient(amount: nat)
      requires Valid()
      modifies client
      ensures Valid() && client.said == old(client.said) && old(client.inQueue) <= client.inQueue
    {
      client.PostSelect(amount, 0);
    }

    method RunServer(amount: nat)
      requires Valid()
      modifies server
      ensures Valid() && server.said == old(server.said) && old(server.inQueue) <= server.inQueue
    {
      server.PostSelect(amount, client.uid);
    }

    method ToServer(bytes: nat)
      requires Valid()
      modifies server`arrived
      ensures Valid()
    {
      server.arrived := More(client.written, server.arrived, bytes);
    }

    method ToClient(bytes: nat)
      requires Valid()
      modifies client`arrived
      ensures Valid()
    {
      client.arrived := More(server.written, client.arrived, bytes);
    }

    /** Any run. */
    method Run(steps: seq<Step>)
      requires Valid()
      modifies client, server
      ensures Valid()
      ensures client.said == After(old(client.said), steps, |steps|, true)
      ensures server.said == After(old(server.said), steps, |steps|, false)
    {
      ghost var byClient, byServer := client.said, server.said;
      var i := 0;
      SaidFrom(byClient, steps, true);
      SaidFrom(byServer, steps, false);
      while i < |steps|
        invariant Valid() && i <= |steps|
        invariant client.said == After(byClient, steps, i, true)
        invariant server.said == After(byServer, steps, i, false)
      {
        SaidOneMore(byClient, steps, i, true);
        SaidOneMore(byServer, steps, i, false);
        Take(steps[i]);
        i := i + 1;
      }
    }
  }

  /** The bytes of the messages that one end sends in the first n steps. */
  function Said(steps: seq<Step>, n: nat, client: bool): string
    requires n <= |steps|
  {
    if n == 0 then "" else Said(steps, n - 1, client) + SaidIn(steps[n - 1], client)
  }

  function After(before: string, steps: seq<Step>, n: nat, client: bool): string
    requires n <= |steps|
  {
    before + Said(steps, n, client)
  }

  lemma SaidFrom(before: string, steps: seq<Step>, client: bool)
    ensures After(before, steps, 0, client) == before
  {
  }

  lemma SaidOneMore(before: string, steps: seq<Step>, n: nat, client: bool)
    requires n < |steps|
    ensures After(before, steps, n, client) + SaidIn(steps[n], client) == After(before, steps, n + 1, client)
  {
  }

  function SaidIn(step: Step, client: bool): string {
    if client && step.ClientSends? then step.msg else if !client && step.ServerSends? then step.msg else ""
  }

  /** In every state of every run: no message byte comes before BEGIN; the server is authorized only after it has read
      BEGIN, for the client's own user; and what either end reads as messages is a start of what the other sent. */
  lemma MessagesComeThrough(s: Session)
    requires s.Valid()
    ensures !s.client.failed && !s.server.failed
    ensures !s.client.authorized ==> s.client.written == Request(s.client.uid)
    ensures s.client.authorized ==> s.client.written == Request(s.client.uid) + BEGIN + s.client.said
    ensures s.client.authorized ==> s.server.state == BeginWait
    ensures s.server.authorized ==>
              && s.client.authorized && s.server.clientUid == Some(s.client.uid)
              && s.server.taken >= |Request(s.client.uid) + BEGIN|
    ensures s.server.inQueue <= s.client.said && s.client.inQueue <= s.server.said && s.hello <= s.client.said
  {
    var handshake := Request(s.client.uid) + BEGIN;
    if s.server.authorized {
      ReadAfter(handshake, s.client.said, s.server.arrived, s.server.taken);
    }
    if s.client.authorized {
      ReadAfter(OK, s.server.said, s.client.arrived, s.client.taken);
    }
  }

  lemma ReadAfter(handshake: string, said: string, arrived: string, taken: nat)
    requires arrived <= handshake + said || arrived <= handshake
    requires |handshake| <= taken <= |arrived|
    ensures arrived[|handshake|..taken] <= said
    ensures taken == |handshake + said| ==> arrived[|handshake|..taken] == said
  {
    var all := handshake + said;
    assert arrived <= all;
    assert all[|handshake|..] == said;
    assert arrived == all[..|arrived|];
  }

  /** Any run from the start, in terms of what was sent: what each end has read as messages, what the client has
      written, and whether the server has accepted it. */
  method Connect(uid: nat, hello: string, steps: seq<Step>)
    returns (toServer: string, toClient: string, written: string, accepted: bool)
    ensures var byClient := hello + Said(steps, |steps|, true);
            && toServer <= byClient && toClient <= Said(steps, |steps|, false)
            && (written == Request(uid) || written == Request(uid) + BEGIN + byClient)
            && (accepted ==> written == Request(uid) + BEGIN + byClient)
    ensures !accepted ==> toServer == ""
    ensures written == Request(uid) ==> toServer == toClient == ""
  {
    var s := new Session(uid, hello);
    s.Run(steps);
    MessagesComeThrough(s);
    assert After("", steps, |steps|, false) == Said(steps, |steps|, false);
    toServer, toClient, written, accepted := s.server.inQueue, s.client.inQueue, s.client.written, s.server.authorized;
    if written == Request(uid) {
      assert |Request(uid) + BEGIN| > |Request(uid)|;
    }
  }

  /** Neither end would do anything when it runs. */
  ghost predicate Quiet(c: WvDBusConn)
    requires c.taken <= |c.arrived|
    reads c
  {
    var unread := c.arrived[c.taken..];
    if c.authorized then unread == ""
    else Line(unread) == None && (c.client || c.state != NullWait || unread == "")
  }

  /** The handshake cannot get stuck: when everything has arrived and neither end would do anything, both are
      authorized, and each has read everything that the other sent. */
  lemma NeverStuck(s: Session)
    requires s.Valid() && s.client.arrived == s.server.written && s.server.arrived == s.client.written
    requires Quiet(s.client) && Quiet(s.server)
    ensures s.client.authorized && s.server.authorized
    ensures s.server.inQueue == s.client.said && s.client.inQueue == s.server.said
  {
    BothAuthorized(s);
    ReadAfter(Request(s.client.uid) + BEGIN, s.client.said, s.server.arrived, s.server.taken);
    ReadAfter(OK, s.server.said, s.client.arrived, s.client.taken);
  }

  lemma BothAuthorized(s: Session)
    requires s.Valid() && s.client.arrived == s.server.written && s.server.arrived == s.client.written
    requires Quiet(s.client) && Quiet(s.server)
    ensures s.client.authorized && s.server.authorized
  {
    ServerHasRequest(s.server, s.client.uid);
    ClientHasOk(s.client);
    ServerHasBegin(s.server, s.client.uid);
  }

  lemma ClientHasOk(client: WvDBusConn)
    requires client.ClientValid() && Quiet(client) && OK <= client.arrived
    ensures client.authorized
  {
    OkComesThrough(client.arrived);
  }

  lemma ServerHasBegin(server: WvDBusConn, peer: nat)
    requires server.ServerValid(peer) && Quiet(server) && server.state == BeginWait
    requires Request(peer) + BEGIN <= server.arrived
    ensures server.authorized
  {
    ServerReads(server.arrived, peer);
  }

  /** A server that has got the whole request does not wait for it. */
  lemma ServerHasRequest(server: WvDBusConn, peer: nat)
    requires server.ServerValid(peer) && Quiet(server) && Request(peer) <= server.arrived
    ensures server.state == BeginWait
  {
    ServerReads(server.arrived, peer);
  }
}
