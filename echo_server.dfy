/**
 * The echo server: every whole request frame in the read buffer is sent
 * back unchanged, length prefix and payload, in the order the frames
 * arrived.
 */
module EchoServer {
  import opened Wire
  import opened Socket
  import opened Connection

  /** Everything the connection consumed it has queued back as replies, byte for byte. */
  ghost predicate Echoing(c: Conn)
    reads c
  {
    c.replies == c.consumed
  }

  /**
   * `try_one_request` of the echo server: a short frame changes nothing, a
   * declared length above `MaxMsg` ends the connection, and a whole frame
   * is copied to the write buffer, removed from the read buffer and
   * flushed, the outcome of the flush's last write, `from` outcomes in,
   * deciding the state. So the connection ends only on a frame that is too
   * long or a failed write. `more` says whether the flush finished, back
   * in `STATE_REQ`.
   */
  method TryOneRequest(c: Conn) returns (more: bool, ghost from: nat)
    requires c.Valid() && c.state == Req && Echoing(c)
    modifies c, c.rBuf, c.wBuf, c.sock
    ensures c.Valid() && c.Ready() && Echoing(c)
    ensures var pending := old(c.rBuf[..c.rBufSize]);
            match CheckFrame(pending)
            case Short => !more && unchanged(c, c.rBuf, c.wBuf, c.sock)
            case TooLong => && !more && c.state == End && c.rBufSize == old(c.rBufSize)
                            && c.consumed == old(c.consumed) && unchanged(c.rBuf, c.wBuf, c.sock)
            case Whole(len) => && c.consumed == old(c.consumed) + pending[..4 + len]
                               && c.rBufSize == old(c.rBufSize) - (4 + len)
                               && c.rBuf[..c.rBufSize] == pending[4 + len..]
                               && (more <==> c.state == Req)
                               && Flushed(old(c.sock.writeResults), from, c.sock.writeResults, c.state)
    ensures more ==> c.state == Req && c.rBufSize < old(c.rBufSize)
    ensures !more && c.state == Req ==> CheckFrame(c.rBuf[..c.rBufSize]) == Short
    ensures c.state == Res ==> Flushed(old(c.sock.writeResults), from, c.sock.writeResults, Res)
    ensures c.state == End ==> || CheckFrame(c.rBuf[..c.rBufSize]) == TooLong
                               || Flushed(old(c.sock.writeResults), from, c.sock.writeResults, End)
    ensures c.sock.writeResults == old(c.sock.writeResults) || LastRetry(old(c.sock.writeResults), from, c.sock.writeResults)
    ensures c.sock.inbound == old(c.sock.inbound) && c.sock.readResults == old(c.sock.readResults)
    ensures c.sock.lastRead == old(c.sock.lastRead)
    ensures |c.sock.writeResults| <= old(|c.sock.writeResults|)
  {
    ghost var pending := c.rBuf[..c.rBufSize];
    from := 0;
    if c.rBufSize < 4 {
      return false, from;
    }
    assert pending[..4] == c.rBuf[..4];
    var len := LoadU32(c.rBuf[..4]);
    if len > MaxMsg {
      c.state := End;
      return false, from;
    }
    if 4 + len > c.rBufSize {
      return false, from;
    }
    assert CheckFrame(pending) == Whole(len);
    more, from := Answer(c, len);
  }

  /**
   * The echo of one whole frame of `len` payload bytes: the reply is the
   * same length prefix and payload, the frame leaves the read buffer, and
   * the reply is flushed, its last write, `from` outcomes in, deciding the
   * state.
   */
  method Answer(c: Conn, len: nat) returns (more: bool, ghost from: nat)
    requires c.Valid() && c.state == Req && Echoing(c)
    requires CheckFrame(c.rBuf[..c.rBufSize]) == Whole(len)
    modifies c, c.rBuf, c.wBuf, c.sock
    ensures c.Valid() && c.Ready() && Echoing(c)
    ensures var pending := old(c.rBuf[..c.rBufSize]);
            && c.consumed == old(c.consumed) + pending[..4 + len]
            && c.rBufSize == old(c.rBufSize) - (4 + len)
            && c.rBuf[..c.rBufSize] == pending[4 + len..]
    ensures more <==> c.state == Req
    ensures Flushed(old(c.sock.writeResults), from, c.sock.writeResults, c.state)
    ensures c.sock.inbound == old(c.sock.inbound) && c.sock.readResults == old(c.sock.readResults)
    ensures c.sock.lastRead == old(c.sock.lastRead)
    ensures |c.sock.writeResults| <= old(|c.sock.writeResults|)
  {
    ghost var pending := c.rBuf[..c.rBufSize];
    assert 4 + len <= c.rBufSize;
    SliceOfPrefix(c.rBuf[..], c.rBufSize, 4, 4 + len);
    var reply := StoreU32(len) + c.rBuf[4..4 + len];
    more, from := c.Respond(reply, 4 + len);
  }

  /**
   * `try_fill_buffer` of the echo server: one read, then requests are
   * answered one by one, in arrival order, while each reply goes out in
   * full. When it returns true a read brought bytes, and what is left in
   * the buffer is less than a whole frame. The connection waits in
   * `STATE_RES` only when the last write, `wfrom` outcomes in, would
   * block, and ends only when the read failed or met the end of the
   * stream, a frame was too long, or the last write failed.
   */
  method TryFillBuffer(c: Conn) returns (more: bool, ghost wfrom: nat)
    requires c.Valid() && c.state == Req && c.rBufSize < BufCap && Echoing(c)
    modifies c, c.rBuf, c.wBuf, c.sock
    ensures c.Valid() && c.Ready() && Echoing(c)
    ensures more ==> c.state == Req && CheckFrame(c.rBuf[..c.rBufSize]) == Short
    ensures more ==> |c.sock.readResults| < old(|c.sock.readResults|)
    ensures var (e, k) := Retry(old(c.sock.readResults));
            && k <= |old(c.sock.readResults)| && c.sock.readResults == old(c.sock.readResults)[k..]
            && (e != WouldBlock ==> (more <==> c.state == Req))
            && (e == WouldBlock ==> && !more && c.state == Req && c.rBufSize == old(c.rBufSize)
                                    && c.rBuf[..c.rBufSize] == old(c.rBuf[..c.rBufSize])
                                    && c.consumed == old(c.consumed) && c.replies == old(c.replies))
            && c.sock.lastRead == Clamp(e, Min(BufCap - old(c.rBufSize), |old(c.sock.inbound)|))
    ensures c.state == End ==> || ReadEnded(Retry(old(c.sock.readResults)).0, c.sock.lastRead)
                               || CheckFrame(c.rBuf[..c.rBufSize]) == TooLong
                               || Flushed(old(c.sock.writeResults), wfrom, c.sock.writeResults, End)
    ensures c.state == Res ==> Flushed(old(c.sock.writeResults), wfrom, c.sock.writeResults, Res)
    ensures c.sock.writeResults == old(c.sock.writeResults) || LastRetry(old(c.sock.writeResults), wfrom, c.sock.writeResults)
  {
    ghost var script := c.sock.writeResults;
    ghost var pos: nat := 0;
    wfrom := 0;
    assert script[0..] == script;
    var got := c.Receive();
    if !got {
      return false, wfrom;
    }
    ghost var unread, last := c.sock.readResults, c.sock.lastRead;
    var again := true;
    while again
      invariant c.Valid() && Echoing(c)
      invariant again ==> c.state == Req
      invariant !again ==> c.Ready() && (c.state == Req ==> CheckFrame(c.rBuf[..c.rBufSize]) == Short)
      invariant c.sock.readResults == unread && c.sock.lastRead == last
      invariant pos <= |script| && c.sock.writeResults == script[pos..]
      invariant c.sock.writeResults == script || LastRetry(script, wfrom, c.sock.writeResults)
      invariant !again && c.state == Res ==> Flushed(script, wfrom, c.sock.writeResults, Res)
      invariant !again && c.state == End ==> || CheckFrame(c.rBuf[..c.rBufSize]) == TooLong
                                             || Flushed(script, wfrom, c.sock.writeResults, End)
      decreases again, c.rBufSize
    {
      ghost var f: nat;
      ghost var now := c.sock.writeResults;
      again, f := TryOneRequest(c);
      pos, wfrom := NextRetry(script, pos, wfrom, f, now, c.sock.writeResults);
    }
    more := c.state == Req;
  }

  /**
   * `state_req`: reads and answers until a read would block or the
   * connection leaves `STATE_REQ`. `from` is where the last
   * `try_fill_buffer` began in the read outcomes, and `wfrom` where the
   * last write began in the write outcomes. The connection stays in
   * `STATE_REQ` only when that read would block, waits in `STATE_RES` only
   * when that write would block, and ends only when that read failed or
   * met the end of the stream, a frame was too long, or that write failed.
   */
  method StateReq(c: Conn) returns (ghost from: nat, ghost wfrom: nat)
    requires c.Valid() && c.Ready() && c.state == Req && Echoing(c)
    modifies c, c.rBuf, c.wBuf, c.sock
    ensures c.Valid() && c.Ready() && Echoing(c)
    ensures LastRetry(old(c.sock.readResults), from, c.sock.readResults)
    ensures c.state == Req ==> Retry(old(c.sock.readResults)[from..]).0 == WouldBlock
    ensures c.state == Res ==> Flushed(old(c.sock.writeResults), wfrom, c.sock.writeResults, Res)
    ensures c.state == End ==> || ReadEnded(Retry(old(c.sock.readResults)[from..]).0, c.sock.lastRead)
                               || CheckFrame(c.rBuf[..c.rBufSize]) == TooLong
                               || Flushed(old(c.sock.writeResults), wfrom, c.sock.writeResults, End)
  {
    ghost var script := c.sock.readResults;
    ghost var pos: nat := 0;
    from := 0;
    assert script[0..] == script;
    ghost var writes := c.sock.writeResults;
    ghost var wpos: nat := 0;
    wfrom := 0;
    assert writes[0..] == writes;
    var more := true;
    while more
      invariant c.Valid() && c.Ready() && Echoing(c)
      invariant more ==> c.state == Req
      invariant pos <= |script| && c.sock.readResults == script[pos..]
      invariant !more ==> LastRetry(script, from, c.sock.readResults) && (c.state == Req ==> Retry(script[from..]).0 == WouldBlock)
      invariant wpos <= |writes| && c.sock.writeResults == writes[wpos..]
      invariant !more && c.state == Res ==> Flushed(writes, wfrom, c.sock.writeResults, Res)
      invariant !more && c.state == End ==> || ReadEnded(Retry(script[from..]).0, c.sock.lastRead)
                                            || CheckFrame(c.rBuf[..c.rBufSize]) == TooLong
                                            || Flushed(writes, wfrom, c.sock.writeResults, End)
      decreases |c.sock.readResults|, more
    {
      from := pos;
      RetryUses(script[from..]);
      ghost var f: nat;
      ghost var now, unread := c.sock.writeResults, c.sock.readResults;
      more, f := TryFillBuffer(c);
      pos := from + Retry(script[from..]).1;
      assert script[from..][Retry(script[from..]).1..] == script[pos..];
      wpos, wfrom := NextRetry(writes, wpos, wfrom, f, now, c.sock.writeResults);
    }
  }

  /**
   * `connection_io` for a live connection: it keeps every invariant, and
   * the bytes the client has been sent are always a prefix of the bytes it
   * sent. From `STATE_REQ` it stops as `state_req` does, `from` being where
   * its last read began; from `STATE_RES` the last write, `wfrom` outcomes
   * in, decides the state, as in `state_res`.
   */
  method ConnectionIo(c: Conn) returns (ghost from: nat, ghost wfrom: nat)
    requires c.Valid() && c.Ready() && Echoing(c) && c.state != End
    modifies c, c.rBuf, c.wBuf, c.sock
    ensures c.Valid() && c.Ready() && Echoing(c)
    ensures c.sock.sent <= c.sock.received
    ensures old(c.state) == Req ==>
              && LastRetry(old(c.sock.readResults), from, c.sock.readResults)
              && (c.state == Req ==> Retry(old(c.sock.readResults)[from..]).0 == WouldBlock)
              && (c.state == Res ==> Flushed(old(c.sock.writeResults), wfrom, c.sock.writeResults, Res))
              && (c.state == End ==> || ReadEnded(Retry(old(c.sock.readResults)[from..]).0, c.sock.lastRead)
                                     || CheckFrame(c.rBuf[..c.rBufSize]) == TooLong
                                     || Flushed(old(c.sock.writeResults), wfrom, c.sock.writeResults, End))
    ensures old(c.state) == Res ==> Flushed(old(c.sock.writeResults), wfrom, c.sock.writeResults, c.state)
  {
    if c.state == Req {
      from, wfrom := StateReq(c);
    } else {
      from := 0;
      wfrom := c.StateRes();
    }
    EchoIsPrefix(c.sock.sent, c.wBuf[c.wBufSent..c.wBufSize], c.consumed, c.rBuf[..c.rBufSize]);
  }

  /** Sent bytes followed by the unsent reply are the consumed bytes, which the buffered ones follow. */
  lemma EchoIsPrefix(sent: Bytes, unsent: Bytes, consumed: Bytes, buffered: Bytes)
    requires sent + unsent == consumed
    ensures sent <= consumed + buffered
  {
    assert (consumed + buffered)[..|sent|] == sent;
  }
}
