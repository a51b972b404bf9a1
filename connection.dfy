/**
 * The per-connection state shared by the echo server and the key-value
 * server: the read buffer the requests accumulate in, the write buffer the
 * reply is sent from, and the state that says which of the two is in use.
 */
module Connection {
  import opened Wire
  import opened Socket

  /** `STATE_REQ`, `STATE_RES` and `STATE_END`. */
  datatype State = Req | Res | End

  /** What the front of the read buffer holds. */
  datatype FrameCheck = Short | TooLong | Whole(len: nat)

  /**
   * The tests of `try_one_request` on the buffered bytes: fewer than 4 bytes
   * or fewer than `4 + len` is a `Short` frame, a declared length above
   * `MaxMsg` is `TooLong`, anything else holds a `Whole` frame.
   */
  function CheckFrame(buf: Bytes): (r: FrameCheck)
    ensures r.Whole? ==> r.len <= MaxMsg && 4 + r.len <= |buf|
    ensures r.Whole? ==> buf[..4 + r.len] == StoreU32(r.len) + buf[4..4 + r.len]
    ensures r.Short? && |buf| <= BufCap ==> |buf| < BufCap
  {
    if |buf| < 4 then Short
    else
      var len := LoadU32(buf[..4]);
      if len > MaxMsg then TooLong
      else if 4 + len > |buf| then Short
      else
        StoreLoadU32(buf[..4]);
        assert buf[..4 + len] == buf[..4] + buf[4..4 + len];
        Whole(len)
  }

  /**
   * The state `state_res` stops in, decided by the outcome of its last
   * write: would-block waits in `STATE_RES`, written bytes (the last of the
   * reply, or the loop would go on) return to `STATE_REQ`, and a failure
   * ends the connection. The retry loop never ends interrupted.
   */
  function FlushExit(e: IoResult): State {
    match e
    case WouldBlock => Res
    case Done(_) => Req
    case _ => End
  }

  /**
   * A flush over the write outcomes `script` stopped in state `s`, leaving
   * `now`: its last write began `from` outcomes in, and that write's
   * outcome decided `s`.
   */
  ghost predicate Flushed(script: seq<IoResult>, from: nat, now: seq<IoResult>, s: State) {
    LastRetry(script, from, now) && s == FlushExit(Retry(script[from..]).0)
  }

  /**
   * The read of `try_fill_buffer` whose retry loop came to the outcome `e`
   * ended the connection: it failed, or `last`, what it returned, was 0
   * bytes, the end of the stream.
   */
  ghost predicate ReadEnded(e: IoResult, last: IoResult) {
    e == Failed || (e.Done? && last == Done(0))
  }

  /** A slice of a prefix is the same slice of the whole. */
  lemma SliceOfPrefix(a: Bytes, n: nat, i: nat, j: nat)
    requires i <= j <= n <= |a|
    ensures a[..n][i..j] == a[i..j]
  {
  }

  /** `memmove(buf, &buf[from], count)`: the `count` bytes at `from` move to the front, in order. */
  method MoveToFront(buf: array<byte>, from: nat, count: nat)
    requires 0 < from && from + count <= buf.Length
    modifies buf
    ensures buf[..count] == old(buf[from..from + count])
  {
    ghost var moved := buf[from..from + count];
    var i := 0;
    while i < count
      invariant i <= count
      invariant buf[..i] == moved[..i]
      invariant buf[i..] == old(buf[i..])
    {
      buf[i] := buf[from + i];
      i := i + 1;
    }
  }

  /** `struct Conn`, with the socket it talks to. */
  class Conn {
    var fd: int
    var state: State
    var rBufSize: nat
    const rBuf: array<byte>
    var wBufSize: nat
    var wBufSent: nat
    const wBuf: array<byte>
    const sock: Peer
    /** Every byte taken off the front of the read buffer by a processed request. */
    ghost var consumed: Bytes
    /** Every byte ever put in the write buffer as a reply. */
    ghost var replies: Bytes

    /**
     * Both buffers hold `4 + MaxMsg` bytes; what the socket delivered is
     * what was consumed followed by the buffered bytes; what the replies
     * hold is what the socket sent followed by the bytes not yet sent; in
     * `STATE_REQ` nothing waits to be sent, and in `STATE_RES` something does.
     */
    ghost predicate Valid()
      reads this, rBuf, wBuf, sock
    {
      && rBuf.Length == BufCap && wBuf.Length == BufCap && rBuf != wBuf
      && rBufSize <= BufCap && wBufSent <= wBufSize <= BufCap
      && sock.received == consumed + rBuf[..rBufSize]
      && sock.sent + wBuf[wBufSent..wBufSize] == replies
      && (state == Req ==> wBufSize == 0)
      && (state == Res ==> wBufSent < wBufSize)
    }

    /** A live connection always has room to read into: the assertion at the head of `try_fill_buffer`. */
    ghost predicate Ready()
      reads this
    {
      state != End ==> rBufSize < BufCap
    }

    /** The initialisation by `accept_new_conn`: empty buffers in `STATE_REQ`. */
    constructor (fd: int, sock: Peer)
      requires sock.received == [] && sock.sent == []
      ensures Valid() && Ready()
      ensures this.fd == fd && this.sock == sock && state == Req
      ensures rBufSize == 0 && wBufSize == 0 && wBufSent == 0
      ensures consumed == [] && replies == []
      ensures fresh(rBuf) && fresh(wBuf)
    {
      this.fd := fd;
      this.sock := sock;
      state := Req;
      rBufSize := 0;
      wBufSize := 0;
      wBufSent := 0;
      rBuf := new byte[BufCap](_ => 0);
      wBuf := new byte[BufCap](_ => 0);
      consumed := [];
      replies := [];
    }

    /**
     * The reply of `try_one_request`: `reply` is copied to the front of the
     * write buffer, `w_buf_size` becomes its length, and the connection
     * moves to `STATE_RES`.
     */
    method PutReply(reply: Bytes)
      requires Valid() && state == Req && 0 < |reply| <= BufCap
      modifies this, wBuf
      ensures Valid() && state == Res
      ensures wBufSize == |reply| && wBufSent == 0 && wBuf[..wBufSize] == reply
      ensures replies == old(replies) + reply
      ensures rBufSize == old(rBufSize) && consumed == old(consumed) && fd == old(fd)
    {
      var i := 0;
      while i < |reply|
        invariant i <= |reply|
        invariant wBuf[..i] == reply[..i]
        modifies wBuf
      {
        wBuf[i] := reply[i];
        i := i + 1;
      }
      assert wBuf[..|reply|] == reply;
      wBufSize := |reply|;
      wBufSent := 0;
      replies := replies + reply;
      state := Res;
    }

    /**
     * The `memmove` of `try_one_request`: the `n` bytes of the processed
     * request leave the read buffer and the bytes after them move to its
     * front, in order.
     */
    method Consume(n: nat)
      requires Valid() && 0 < n <= rBufSize
      modifies this, rBuf
      ensures Valid()
      ensures rBufSize == old(rBufSize) - n && rBuf[..rBufSize] == old(rBuf[n..rBufSize])
      ensures consumed == old(consumed) + old(rBuf[..n])
      ensures state == old(state) && wBufSize == old(wBufSize) && wBufSent == old(wBufSent)
      ensures replies == old(replies) && fd == old(fd)
    {
      ghost var taken := rBuf[..n];
      ghost var rest := rBuf[n..rBufSize];
      assert rBuf[..rBufSize] == taken + rest;
      var remain := rBufSize - n;
      if remain > 0 {
        MoveToFront(rBuf, n, remain);
      }
      rBufSize := remain;
      consumed := consumed + taken;
    }

    /**
     * The end of `try_one_request` for a whole request of `n` bytes: the
     * reply goes to the write buffer, the request leaves the read buffer,
     * the connection moves to `STATE_RES`, and `state_res` flushes: `from`
     * is where its last write began in the write outcomes, and that write
     * decided the state. `more` says whether the flush finished, back in
     * `STATE_REQ`.
     */
    method Respond(reply: Bytes, n: nat) returns (more: bool, ghost from: nat)
      requires Valid() && state == Req && 0 < |reply| <= BufCap && 0 < n <= rBufSize
      modifies this, rBuf, wBuf, sock
      ensures Valid() && Ready()
      ensures replies == old(replies) + reply
      ensures consumed == old(consumed) + old(rBuf[..n])
      ensures rBufSize == old(rBufSize) - n && rBuf[..rBufSize] == old(rBuf[n..rBufSize])
      ensures more <==> state == Req
      ensures Flushed(old(sock.writeResults), from, sock.writeResults, state)
      ensures sock.inbound == old(sock.inbound) && sock.readResults == old(sock.readResults)
      ensures sock.lastRead == old(sock.lastRead)
      ensures |sock.writeResults| <= old(|sock.writeResults|)
      ensures fd == old(fd)
    {
      PutReply(reply);
      Consume(n);
      from := StateRes();
      more := state == Req;
    }

    /**
     * The retry loop of `try_flush_buffer` as the comment after it intends
     * (an interrupted `write` is repeated, would-block ends the loop): the
     * outcome of `Retry` on the coming write outcomes, at most the unsent
     * bytes, which reach the client.
     */
    method WriteRetry() returns (r: IoResult)
      requires Valid() && state == Res
      modifies sock
      ensures r == Clamp(Retry(old(sock.writeResults)).0, wBufSize - wBufSent)
      ensures Retry(old(sock.writeResults)).1 <= |old(sock.writeResults)|
      ensures sock.writeResults == old(sock.writeResults)[Retry(old(sock.writeResults)).1..]
      ensures r.Done? ==> sock.sent == old(sock.sent) + wBuf[wBufSent..wBufSent + r.count]
      ensures !r.Done? ==> sock.sent == old(sock.sent)
      ensures sock.inbound == old(sock.inbound) && sock.readResults == old(sock.readResults)
      ensures sock.received == old(sock.received) && sock.lastRead == old(sock.lastRead)
    {
      ghost var script := sock.writeResults;
      ghost var used: nat := 0;
      assert script[0..] == script;
      r := Interrupted;
      while r == Interrupted
        invariant used <= |script| && sock.writeResults == script[used..]
        invariant r == Interrupted ==> Retry(script) == (Retry(script[used..]).0, Retry(script[used..]).1 + used)
        invariant r != Interrupted ==> r == Clamp(Retry(script).0, wBufSize - wBufSent) && Retry(script).1 == used
        invariant r.Done? ==> sock.sent == old(sock.sent) + wBuf[wBufSent..wBufSent + r.count]
        invariant !r.Done? ==> sock.sent == old(sock.sent)
        invariant sock.inbound == old(sock.inbound) && sock.readResults == old(sock.readResults)
        invariant sock.received == old(sock.received) && sock.lastRead == old(sock.lastRead)
        decreases |sock.writeResults|, r == Interrupted
      {
        RetryStep(script, used);
        r := sock.Write(wBuf, wBufSent, wBufSize);
        used := if used == |script| then used else used + 1;
      }
    }

    /**
     * `try_flush_buffer`, with the intended retry loop: would-block leaves
     * the connection waiting in `STATE_RES`, a failure ends it, and written
     * bytes advance `w_buf_sent`; once all are sent, the connection returns
     * to `STATE_REQ` with both counters reset. `again` says whether bytes
     * remain to be written.
     */
    method TryFlushBuffer() returns (again: bool)
      requires Valid() && state == Res
      modifies this, sock
      ensures Valid()
      ensures var (e, k) := Retry(old(sock.writeResults));
              && k <= |old(sock.writeResults)| && sock.writeResults == old(sock.writeResults)[k..]
              && (e == WouldBlock ==> !again && state == Res && wBufSent == old(wBufSent))
              && (e == Failed ==> !again && state == End)
              && (e.Done? ==> var n := Min(e.count, old(wBufSize - wBufSent));
                              && sock.sent == old(sock.sent) + wBuf[old(wBufSent)..old(wBufSent) + n]
                              && (old(wBufSent) + n == old(wBufSize) ==> !again && state == Req)
                              && (old(wBufSent) + n < old(wBufSize) ==> again && state == Res && wBufSent == old(wBufSent) + n))
      ensures again ==> |sock.writeResults| < old(|sock.writeResults|)
      ensures !again ==> |sock.writeResults| <= old(|sock.writeResults|)
      ensures again ==> state == Res
      ensures state == Res ==> wBufSize == old(wBufSize)
      ensures rBufSize == old(rBufSize) && consumed == old(consumed) && replies == old(replies) && fd == old(fd)
      ensures sock.inbound == old(sock.inbound) && sock.readResults == old(sock.readResults)
      ensures sock.lastRead == old(sock.lastRead)
    {
      RetryUses(sock.writeResults);
      var r := WriteRetry();
      if r == WouldBlock {
        return false;
      }
      if !r.Done? {
        state := End;
        return false;
      }
      wBufSent := wBufSent + r.count;
      if wBufSent == wBufSize {
        state := Req;
        wBufSent := 0;
        wBufSize := 0;
        return false;
      }
      again := true;
    }

    /**
     * `state_res`: flushes until the reply is sent, the socket would block,
     * or writing fails. `from` is where the last `try_flush_buffer` began in
     * the write outcomes, and the outcome of that write decides the state:
     * `STATE_RES` when it would block, `STATE_END` when it failed, and
     * `STATE_REQ` when it sent the last of the reply.
     */
    method StateRes() returns (ghost from: nat)
      requires Valid() && state == Res
      modifies this, sock
      ensures Valid()
      ensures state == Req ==> sock.sent == replies
      ensures Flushed(old(sock.writeResults), from, sock.writeResults, state)
      ensures |sock.writeResults| <= old(|sock.writeResults|)
      ensures rBufSize == old(rBufSize) && consumed == old(consumed) && replies == old(replies) && fd == old(fd)
      ensures sock.inbound == old(sock.inbound) && sock.readResults == old(sock.readResults)
      ensures sock.lastRead == old(sock.lastRead)
    {
      ghost var script := sock.writeResults;
      ghost var pos: nat := 0;
      from := 0;
      assert script[0..] == script;
      var again := true;
      while again
        invariant Valid()
        invariant again ==> state == Res
        invariant pos <= |script| && sock.writeResults == script[pos..]
        invariant !again ==> Flushed(script, from, sock.writeResults, state)
        invariant rBufSize == old(rBufSize) && consumed == old(consumed) && replies == old(replies) && fd == old(fd)
        invariant sock.inbound == old(sock.inbound) && sock.readResults == old(sock.readResults)
        invariant sock.lastRead == old(sock.lastRead)
        decreases again, |sock.writeResults|
      {
        from := pos;
        again := TryFlushBuffer();
        pos := from + Retry(script[from..]).1;
        assert script[from..][Retry(script[from..]).1..] == script[pos..];
      }
    }

    /**
     * The retry loop of `try_fill_buffer`: `read` into the free end of the
     * read buffer, repeated while interrupted; the outcome of `Retry` on
     * the coming read outcomes, at most the free room and at most what the
     * client has sent.
     */
    method ReadRetry() returns (r: IoResult)
      requires Valid() && rBufSize < BufCap
      modifies sock, rBuf
      ensures r == Clamp(Retry(old(sock.readResults)).0, Min(BufCap - rBufSize, |old(sock.inbound)|))
      ensures sock.lastRead == r
      ensures Retry(old(sock.readResults)).1 <= |old(sock.readResults)|
      ensures sock.readResults == old(sock.readResults)[Retry(old(sock.readResults)).1..]
      ensures r.Done? ==> && rBuf[..rBufSize + r.count] == old(rBuf[..rBufSize]) + old(sock.inbound)[..r.count]
                          && sock.inbound == old(sock.inbound)[r.count..]
                          && sock.received == old(sock.received) + old(sock.inbound)[..r.count]
      ensures !r.Done? ==> rBuf[..] == old(rBuf[..]) && sock.inbound == old(sock.inbound) && sock.received == old(sock.received)
      ensures sock.writeResults == old(sock.writeResults) && sock.sent == old(sock.sent)
    {
      ghost var script := sock.readResults;
      ghost var used: nat := 0;
      assert script[0..] == script;
      r := Interrupted;
      while r == Interrupted
        invariant used <= |script| && sock.readResults == script[used..]
        invariant r == Interrupted ==> Retry(script) == (Retry(script[used..]).0, Retry(script[used..]).1 + used)
        invariant r != Interrupted ==> r == Clamp(Retry(script).0, Min(BufCap - rBufSize, |old(sock.inbound)|)) && Retry(script).1 == used
        invariant r != Interrupted ==> sock.lastRead == r
        invariant !r.Done? ==> rBuf[..] == old(rBuf[..]) && sock.inbound == old(sock.inbound) && sock.received == old(sock.received)
        invariant r.Done? ==> && rBuf[..] == old(rBuf[..rBufSize]) + old(sock.inbound)[..r.count] + old(rBuf[rBufSize + r.count..])
                              && sock.inbound == old(sock.inbound)[r.count..]
                              && sock.received == old(sock.received) + old(sock.inbound)[..r.count]
        invariant sock.writeResults == old(sock.writeResults) && sock.sent == old(sock.sent)
        decreases |sock.readResults|, r == Interrupted
      {
        RetryStep(script, used);
        r := sock.Read(rBuf, rBufSize, BufCap - rBufSize);
        used := if used == |script| then used else used + 1;
      }
      if r.Done? {
        assert rBuf[..rBufSize + r.count] == (old(rBuf[..rBufSize]) + old(sock.inbound)[..r.count] + old(rBuf[rBufSize + r.count..]))[..rBufSize + r.count];
      }
    }

    /**
     * The read of `try_fill_buffer`, up to `r_buf_size += rv`: would-block
     * changes nothing, a failure or the end of the stream ends the
     * connection, and read bytes are appended to the buffered ones. `got`
     * says whether bytes were read.
     */
    method Receive() returns (got: bool)
      requires Valid() && state == Req && rBufSize < BufCap
      modifies this, sock, rBuf
      ensures Valid()
      ensures var (e, k) := Retry(old(sock.readResults));
              && k <= |old(sock.readResults)| && sock.readResults == old(sock.readResults)[k..]
              && (e == WouldBlock ==> !got && state == Req && rBufSize == old(rBufSize))
              && (e == Failed ==> !got && state == End)
              && (e.Done? ==> var n := Min(e.count, Min(BufCap - old(rBufSize), |old(sock.inbound)|));
                              && (n == 0 ==> !got && state == End)
                              && (n > 0 ==> && got && state == Req && rBufSize == old(rBufSize) + n
                                            && rBuf[..rBufSize] == old(rBuf[..rBufSize]) + old(sock.inbound)[..n]))
      ensures sock.lastRead == Clamp(Retry(old(sock.readResults)).0, Min(BufCap - old(rBufSize), |old(sock.inbound)|))
      ensures got ==> |sock.readResults| < old(|sock.readResults|)
      ensures !got ==> |sock.readResults| <= old(|sock.readResults|)
      ensures !got && state == Req ==> rBufSize == old(rBufSize) && rBuf[..rBufSize] == old(rBuf[..rBufSize])
      ensures consumed == old(consumed) && replies == old(replies) && fd == old(fd)
      ensures wBufSize == old(wBufSize) && wBufSent == old(wBufSent)
      ensures sock.writeResults == old(sock.writeResults) && sock.sent == old(sock.sent)
    {
      RetryUses(sock.readResults);
      var r := ReadRetry();
      if r == WouldBlock {
        return false;
      }
      if !r.Done? {
        state := End;
        return false;
      }
      if r.count == 0 {
        state := End;
        return false;
      }
      rBufSize := rBufSize + r.count;
      got := true;
    }
  }
}
