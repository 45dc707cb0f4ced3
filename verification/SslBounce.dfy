/**
 The bounce buffers of WvSSLStream (wvsslstream.cc): OpenSSL wants a failed SSL_write repeated with exactly the same
 arguments, so the stream keeps the chunk it could not write, does not claim it, and later pays for what it wrote
 beyond a claim by swallowing bytes that the caller presents again.

 SSL_write and SSL_read are modelled by their answer to the n-th call, for any function: fail, or take the whole
 chunk (the code asserts that nothing in between happens), and fail, or deliver some bytes.
 */
module SslBounce {
  import opened Slices

  newtype byte = b: int | 0 <= b < 256

  /** One TLS record (RFC 2246, section 6.2.1). */
  const MAX_BOUNCE_AMOUNT: nat := 16384

  /** The outcome of one SSL call that failed: try again later, an error, or the end of the connection. */
  datatype Failure = WantMore | SslError | EndOfStream

  datatype WriteAnswer = Accepts | WriteFails(why: Failure)

  datatype ReadAnswer = Delivers(data: seq<byte>) | ReadFails(why: Failure)

  /** One call of SSL_write. */
  datatype Attempt = Attempt(data: seq<byte>, accepted: bool)

  /** The bytes that SSL has taken, in order. */
  function Sent(attempts: seq<Attempt>): seq<byte> {
    if attempts == [] then []
    else
      var last := attempts[|attempts| - 1];
      Sent(attempts[..|attempts| - 1]) + if last.accepted then last.data else []
  }

  lemma SentSnoc(attempts: seq<Attempt>, a: Attempt)
    ensures Sent(attempts + [a]) == Sent(attempts) + if a.accepted then a.data else []
  {
    assert (attempts + [a])[..|attempts|] == attempts;
  }

  /** The chunk that is still owed to SSL after these calls. */
  function Owed(attempts: seq<Attempt>): seq<byte> {
    if attempts == [] || attempts[|attempts| - 1].accepted then [] else attempts[|attempts| - 1].data
  }

  /** Every call has 1 to 16384 bytes, and no call is made while another chunk is owed. */
  ghost predicate Retried(attempts: seq<Attempt>) {
    attempts == []
    || (var init, last := attempts[..|attempts| - 1], attempts[|attempts| - 1];
        Retried(init) && 0 < |last.data| <= MAX_BOUNCE_AMOUNT && (Owed(init) == [] || Owed(init) == last.data))
  }

  /** The calls are those whose outcomes SSL has answered. */
  ghost predicate Answered(attempts: seq<Attempt>, answers: nat -> WriteAnswer, calls: nat) {
    calls == |attempts| && forall k :: 0 <= k < calls ==> (attempts[k].accepted <==> answers(k).Accepts?)
  }

  lemma AnsweredOneMore(attempts: seq<Attempt>, answers: nat -> WriteAnswer, data: seq<byte>)
    requires Answered(attempts, answers, |attempts|)
    ensures Answered(attempts + [Attempt(data, answers(|attempts|).Accepts?)], answers, |attempts| + 1)
  {
  }

  /** The bytes of the first n calls of SSL_read; a call asks for no more than one bounce buffer holds. */
  function Received(answers: nat -> ReadAnswer, n: nat): seq<byte> {
    if n == 0 then [] else Received(answers, n - 1) + BytesOf(answers(n - 1))
  }

  function BytesOf(answer: ReadAnswer): seq<byte> {
    match answer
    case Delivers(data) => if |data| <= MAX_BOUNCE_AMOUNT then data else data[..MAX_BOUNCE_AMOUNT]
    case ReadFails(_) => []
  }

  /** After an SSL_write fails, the next one has byte-identical data. */
  lemma {:induction false} FailedCallIsRepeated(attempts: seq<Attempt>, i: nat)
    requires Retried(attempts) && i + 1 < |attempts| && !attempts[i].accepted
    ensures attempts[i + 1].data == attempts[i].data
  {
    var init := attempts[..|attempts| - 1];
    if i + 1 == |init| {
      assert init[|init| - 1] == attempts[i];
    } else {
      FailedCallIsRepeated(init, i);
    }
  }

  lemma Attempted(attempts: seq<Attempt>, data: seq<byte>, ok: bool)
    requires Retried(attempts) && (Owed(attempts) == [] || Owed(attempts) == data)
    requires 0 < |data| <= MAX_BOUNCE_AMOUNT
    ensures var longer := attempts + [Attempt(data, ok)];
            Retried(longer) && Owed(longer) == (if ok then [] else data)
            && Sent(longer) == if ok then Sent(attempts) + data else Sent(attempts)
  {
    SentSnoc(attempts, Attempt(data, ok));
    assert Sent(attempts) + [] == Sent(attempts);
    assert (attempts + [Attempt(data, ok)])[..|attempts|] == attempts;
  }

  class WvSSLStream {
    const sslWrite: nat -> WriteAnswer
    const sslRead: nat -> ReadAnswer

    var sslconnected: bool
    var writeEat: nat
    var writeBounce: seq<byte>
    var unconnectedBuf: seq<byte>
    var writeCalls: nat

    var readBounce: seq<byte>
    var readPending: bool
    var stopped: bool
    var readCalls: nat

    /** Every SSL_write so far; how many bytes uwrite has claimed; what SSL_read delivered and uread returned. */
    ghost var attempts: seq<Attempt>
    ghost var claimed: nat
    ghost var delivered: seq<byte>
    ghost var returned: seq<byte>

    constructor (sslWrite: nat -> WriteAnswer, sslRead: nat -> ReadAnswer)
      ensures this.sslWrite == sslWrite && this.sslRead == sslRead
      ensures ValidWrite() && ValidRead() && !sslconnected && unconnectedBuf == []
      ensures attempts == [] && claimed == 0 && delivered == returned == []
    {
      this.sslWrite := sslWrite;
      this.sslRead := sslRead;
      sslconnected, writeEat, writeBounce, unconnectedBuf, writeCalls := false, 0, [], [], 0;
      readBounce, readPending, stopped, readCalls := [], false, false, 0;
      attempts, claimed, delivered, returned := [], 0, [], [];
    }

    /** What holds whatever the caller writes: the bounce buffer is the chunk owed to SSL, and bytes are owed to
        the caller's next write only while no chunk is. */
    ghost predicate ValidWrite()
      reads this
    {
      && Tried()
      && (writeEat > 0 ==> writeBounce == [])
    }

    /** Every call of SSL_write was as SSL wants it, and the bounce buffer is what it is owed. */
    ghost predicate Tried()
      reads this
    {
      Retried(attempts) && Answered(attempts, sslWrite, writeCalls) && writeBounce == Owed(attempts)
    }

    /** The bytes SSL took and the chunk kept for it are the start of the caller's stream; SSL is ahead of the
        claims by exactly the bytes to be eaten. */
    ghost predicate Carries(stream: seq<byte>)
      reads this
    {
      OnStream(stream, Sent(attempts), writeBounce, claimed + writeEat)
    }

    /** setconnected. */
    method SetConnected()
      modifies this`sslconnected
      ensures sslconnected
    {
      sslconnected := true;
    }

    /** SSL_write of the bounce buffer; the end of the connection closes the stream. */
    method SslWrite() returns (ok: bool)
      requires Retried(attempts) && (Owed(attempts) == [] || Owed(attempts) == writeBounce)
      requires 0 < |writeBounce| <= MAX_BOUNCE_AMOUNT && Answered(attempts, sslWrite, writeCalls)
      modifies this`writeCalls, this`writeBounce, this`sslconnected, this`attempts
      ensures Tried() && attempts == old(attempts) + [Attempt(old(writeBounce), ok)]
      ensures writeBounce == if ok then [] else old(writeBounce)
      ensures ok <==> sslWrite(old(writeCalls)).Accepts?
      ensures Sent(attempts) == if ok then old(Sent(attempts)) + old(writeBounce) else old(Sent(attempts))
      ensures sslconnected == (old(sslconnected) && sslWrite(old(writeCalls)) != WriteFails(EndOfStream))
    {
      var answer := sslWrite(writeCalls);
      ok := answer.Accepts?;
      Attempted(attempts, writeBounce, ok);
      AnsweredOneMore(attempts, sslWrite, writeBounce);
      writeCalls := writeCalls + 1;
      attempts := attempts + [Attempt(writeBounce, ok)];
      if ok {
        writeBounce := [];
      } else if answer.why.EndOfStream? {
        sslconnected := false;
      }
    }

    /** uwrite. Unless nothing was to be written, it claims everything exactly if no SSL_write failed. */
    method Uwrite(buf: seq<byte>, ghost stream: seq<byte>) returns (total: nat)
      requires ValidWrite()
      modifies this`writeCalls, this`writeBounce, this`writeEat, this`sslconnected, this`unconnectedBuf,
               this`attempts, this`claimed
      ensures ValidWrite() && total <= |buf|
      ensures !old(sslconnected) ==> total == |buf| && unconnectedBuf == old(unconnectedBuf) + buf
                                     && attempts == old(attempts) && claimed == old(claimed)
                                     && writeEat == old(writeEat)
      ensures old(sslconnected) ==> claimed == old(claimed) + total && unconnectedBuf == old(unconnectedBuf)
      ensures old(sslconnected) && buf != [] ==> (total == |buf| <==> writeBounce == [])
      ensures old(sslconnected) && Presents(stream, old(claimed), buf) && old(Carries(stream)) ==> Carries(stream)
      ensures !old(sslconnected) && old(Carries(stream)) ==> Carries(stream)
    {
      total := 0;
      if !sslconnected {
        unconnectedBuf := unconnectedBuf + buf;
        return |buf|;
      }
      if |buf| == 0 {
        return;
      }
      ghost var faithful := Presents(stream, claimed, buf) && Carries(stream);
      var len := |buf|;
      if writeEat >= len {
        writeEat := writeEat - len;
        total := len;
      } else {
        total := writeEat;
        writeEat := 0;
      }
      total := WriteChunks(buf, total, stream, faithful);
      claimed := claimed + total;
    }

    /** The loop of uwrite, after the bytes to be eaten have been taken off. */
    method WriteChunks(buf: seq<byte>, from: nat, ghost stream: seq<byte>, ghost faithful: bool) returns (total: nat)
      requires Tried() && from <= |buf|
      requires if from == |buf| then writeBounce == [] else writeEat == 0
      requires faithful ==> Presents(stream, claimed, buf)
                            && OnStream(stream, Sent(attempts), writeBounce, claimed + from + writeEat)
      modifies this`writeCalls, this`writeBounce, this`writeEat, this`sslconnected, this`attempts
      ensures Tried() && total <= |buf|
      ensures total == |buf| <==> writeBounce == []
      ensures writeEat > 0 ==> writeBounce == []
      ensures faithful ==> OnStream(stream, Sent(attempts), writeBounce, claimed + total + writeEat)
    {
      total := from;
      var more := total < |buf| || |writeBounce| != 0;
      while more
        invariant 0 <= total <= |buf|
        invariant Tried()
        invariant if total == |buf| then writeBounce == [] else writeEat == 0
        invariant more ==> total < |buf|
        invariant !more ==> (total == |buf| <==> writeBounce == [])
        invariant faithful ==> OnStream(stream, Sent(attempts), writeBounce, claimed + total + writeEat)
        decreases more, |buf| - total
      {
        total, more := WriteChunk(buf, total, stream, faithful);
      }
    }

    /** One turn of the loop of uwrite: writes the chunk that is owed, or else the next one of buf; goes on only if
        SSL took it and something is left. */
    method WriteChunk(buf: seq<byte>, from: nat, ghost stream: seq<byte>, ghost faithful: bool)
      returns (total: nat, more: bool)
      requires Tried() && from < |buf| && writeEat == 0
      requires faithful ==> Presents(stream, claimed, buf)
                            && OnStream(stream, Sent(attempts), writeBounce, claimed + from + writeEat)
      modifies this`writeCalls, this`writeBounce, this`writeEat, this`sslconnected, this`attempts
      ensures Tried() && from <= total <= |buf|
      ensures if total == |buf| then writeBounce == [] && !more else writeEat == 0
      ensures more ==> from < total && writeBounce == []
      ensures !more && total < |buf| ==> writeBounce != []
      ensures faithful ==> OnStream(stream, Sent(attempts), writeBounce, claimed + total + writeEat)
    {
      FillBounce(buf, from, stream, faithful);
      var used;
      used, more := SendChunk(|buf| - from, stream, claimed + from, faithful);
      total := from + used;
    }

    /** Writes the chunk in the bounce buffer, when len bytes are left to write: how many of them are done with. */
    method SendChunk(len: nat, ghost stream: seq<byte>, ghost place: nat, ghost faithful: bool)
      returns (done: nat, more: bool)
      requires Retried(attempts) && (Owed(attempts) == [] || Owed(attempts) == writeBounce)
      requires 0 < |writeBounce| <= MAX_BOUNCE_AMOUNT && Answered(attempts, sslWrite, writeCalls)
      requires writeEat == 0 && 0 < len && (faithful ==> OnStream(stream, Sent(attempts), writeBounce, place))
      modifies this`writeCalls, this`writeBounce, this`writeEat, this`sslconnected, this`attempts
      ensures Tried() && done <= len && (more <==> 0 < done < len) && (writeBounce == [] <==> 0 < done)
      ensures done < len ==> writeEat == 0
      ensures faithful ==> OnStream(stream, Sent(attempts), writeBounce, place + done + writeEat)
    {
      var used := |writeBounce|;
      ghost var sent, chunk := Sent(attempts), writeBounce;
      var ok := SslWrite();
      done, more := 0, ok && used < len;
      if ok {
        if used >= len {
          writeEat := used - len;
          done := len;
        } else {
          done := used;
        }
        if faithful {
          ChunkTaken(stream, sent, chunk, place, Sent(attempts), place + done + writeEat);
        }
      }
    }

    /** If no chunk is owed, the next one of buf comes into the bounce buffer. */
    method FillBounce(buf: seq<byte>, from: nat, ghost stream: seq<byte>, ghost faithful: bool)
      requires Tried() && from < |buf| && writeEat == 0
      requires faithful ==> Presents(stream, claimed, buf)
                            && OnStream(stream, Sent(attempts), writeBounce, claimed + from + writeEat)
      modifies this`writeBounce
      ensures 0 < |writeBounce| <= MAX_BOUNCE_AMOUNT && (Owed(attempts) == [] || Owed(attempts) == writeBounce)
      ensures writeBounce == old(writeBounce)
              || (writeBounce <= buf[from..] && |writeBounce| == if |buf| - from < MAX_BOUNCE_AMOUNT then |buf| - from
                                                                 else MAX_BOUNCE_AMOUNT)
      ensures faithful ==> OnStream(stream, Sent(attempts), writeBounce, claimed + from + writeEat)
    {
      var len := |buf| - from;
      if |writeBounce| == 0 {
        var amount := if len < MAX_BOUNCE_AMOUNT then len else MAX_BOUNCE_AMOUNT;
        writeBounce := buf[from..from + amount];
        if faithful {
          NextChunk(stream, Sent(attempts), claimed, buf, from, amount, claimed + from + writeEat);
        }
      }
    }

    /** Any run of writes by a caller that presents again what was not claimed, as the output buffer of WvStream
        does: SSL has taken a prefix of the caller's stream, and nothing is lost, doubled or reordered. */
    method WriteStream(stream: seq<byte>, lengths: seq<nat>) returns (done: nat)
      requires ValidWrite() && sslconnected && attempts == [] && claimed == 0 && writeEat == 0
      modifies this`writeCalls, this`writeBounce, this`writeEat, this`sslconnected, this`unconnectedBuf,
               this`attempts, this`claimed
      ensures ValidWrite() && Carries(stream)
      ensures done == claimed <= |Sent(attempts)| <= |stream| && Sent(attempts) == stream[..claimed + writeEat]
      ensures writeEat > 0 ==> writeBounce == []
      ensures writeBounce <= stream[|Sent(attempts)|..]
    {
      done := 0;
      var i := 0;
      while i < |lengths| && sslconnected
        invariant ValidWrite() && Carries(stream) && done == claimed
      {
        ReachesInto(stream, Sent(attempts), writeBounce, claimed + writeEat);
        done := WriteNext(stream, done, lengths[i]);
        i := i + 1;
      }
      ReachesInto(stream, Sent(attempts), writeBounce, claimed + writeEat);
    }

    /** The caller presents some of what was not claimed. */
    method WriteNext(stream: seq<byte>, done: nat, length: nat) returns (done': nat)
      requires ValidWrite() && Carries(stream) && sslconnected && done == claimed <= |stream|
      modifies this`writeCalls, this`writeBounce, this`writeEat, this`sslconnected, this`unconnectedBuf,
               this`attempts, this`claimed
      ensures ValidWrite() && Carries(stream) && done' == claimed
    {
      var n := if length < |stream| - done then length else |stream| - done;
      var total := Uwrite(stream[done..done + n], stream);
      done' := done + total;
    }

    // ----- reading -----

    /** What all calls of SSL_read have delivered is what uread returned, followed by the bounce buffer. */
    ghost predicate ValidRead()
      reads this
    {
      && delivered == returned + readBounce && |readBounce| <= MAX_BOUNCE_AMOUNT
      && delivered == Received(sslRead, readCalls)
    }

    /** SSL_read into the empty bounce buffer; the end of the connection stops both directions. */
    method SslRead() returns (ok: bool)
      requires ValidRead() && readBounce == []
      modifies this`readCalls, this`readBounce, this`stopped, this`delivered
      ensures ValidRead() && ok == (readBounce != []) && readCalls == old(readCalls) + 1
      ensures !ok ==> delivered == old(delivered)
      ensures old(delivered) <= delivered && stopped == (old(stopped) || SaysEnd(sslRead(old(readCalls))))
    {
      var answer := sslRead(readCalls);
      readCalls := readCalls + 1;
      match answer
      case Delivers(data) =>
        var result := if |data| <= MAX_BOUNCE_AMOUNT then data else data[..MAX_BOUNCE_AMOUNT];
        readBounce := result;
        delivered := delivered + result;
        return result != [];
      case ReadFails(why) =>
        if why.EndOfStream? {
          stopped := true;
        }
        return false;
    }

    /** The next bytes of the bounce buffer. */
    method TakeBounce(len: nat) returns (data: seq<byte>)
      requires ValidRead() && readPending && readBounce != [] && len > 0
      modifies this`readBounce, this`readPending, this`returned
      ensures ValidRead() && returned == old(returned) + data && 0 < |data| <= len
      ensures readPending == (|data| < len) && (|data| < len ==> readBounce == [])
    {
      var amount := if len < |readBounce| then len else |readBounce|;
      data := readBounce[..amount];
      returned := returned + data;
      readBounce := readBounce[amount..];
      if amount == len {
        readPending := false;
      }
    }

    /** uread: empty only if not connected, asked for nothing, or SSL has nothing; otherwise the next bytes. */
    method Uread(len: nat) returns (data: seq<byte>)
      requires ValidRead()
      modifies this`readCalls, this`readBounce, this`readPending, this`stopped, this`delivered, this`returned
      ensures ValidRead() && returned == old(returned) + data && |data| <= len
      ensures old(delivered) <= delivered && old(readCalls) <= readCalls <= old(readCalls) + 1
      ensures !sslconnected || len == 0 ==> data == [] && readCalls == old(readCalls)
      ensures sslconnected && len > 0 && old(readBounce) != [] ==> data != [] && readCalls == old(readCalls)
      ensures sslconnected && len > 0 && data == [] ==> delivered == old(delivered) && !readPending
      ensures sslconnected && len > 0 && data != [] ==> (readPending <==> |data| < len)
      ensures |data| < len && data != [] ==> readBounce == []
    {
      data := [];
      if !sslconnected || len == 0 {
        return;
      }
      readPending := true;
      while true
        invariant ValidRead() && data == [] && returned == old(returned) && readPending
        invariant || (readBounce == old(readBounce) && readCalls == old(readCalls) && delivered == old(delivered))
                  || (old(readBounce) == [] && readBounce != [] && readCalls == old(readCalls) + 1
                      && old(delivered) <= delivered)
        decreases readBounce == []
      {
        if |readBounce| != 0 {
          data := TakeBounce(len);
          break;
        }
        var ok := SslRead();
        if !ok {
          readPending := false;
          break;
        }
      }
    }
  }

  predicate SaysEnd(answer: ReadAnswer) {
    answer.ReadFails? && answer.why.EndOfStream?
  }

  /** The caller presents the part of its stream that has not been claimed yet. */
  ghost predicate Presents(stream: seq<byte>, claimed: nat, buf: seq<byte>) {
    claimed + |buf| <= |stream| && stream[claimed..claimed + |buf|] == buf
  }

  /** `sent` and the chunk behind it are the start of the stream, and `sent` reaches up to the given place. */
  ghost predicate OnStream(stream: seq<byte>, sent: seq<byte>, chunk: seq<byte>, place: nat) {
    |sent| == place && sent + chunk <= stream
  }

  lemma ReachesInto(stream: seq<byte>, sent: seq<byte>, chunk: seq<byte>, place: nat)
    requires OnStream(stream, sent, chunk, place)
    ensures place <= |stream| && sent == stream[..place] && chunk <= stream[place..]
  {
    assert (sent + chunk)[..place] == sent && (sent + chunk)[place..] == chunk;
    assert (sent + chunk)[..place] == stream[..place];
  }

  lemma NextChunk(
    stream: seq<byte>, sent: seq<byte>, claimed: nat, buf: seq<byte>, total: nat, amount: nat, place: nat)
    requires Presents(stream, claimed, buf) && total + amount <= |buf| && place == claimed + total
    requires OnStream(stream, sent, [], place)
    ensures OnStream(stream, sent, buf[total..total + amount], place)
  {
    assert sent + [] == sent;
    SliceOfSlice(stream, claimed, claimed + |buf|, total, total + amount, place, place + amount);
    assert stream[..place + amount] == stream[..place] + stream[place..place + amount];
  }

  lemma ChunkTaken(
    stream: seq<byte>, sent: seq<byte>, chunk: seq<byte>, place: nat, sent': seq<byte>, place': nat)
    requires OnStream(stream, sent, chunk, place) && sent' == sent + chunk && place' == place + |chunk|
    ensures OnStream(stream, sent', [], place')
  {
    assert sent + chunk + [] == sent + chunk;
  }
}
