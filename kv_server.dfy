/**
 * The key-value server: every whole request frame in the read buffer is a
 * request payload, which is parsed and executed against the key space, and
 * answered with a reply frame carrying the status code and the body.
 */
module KvServer {
  import opened Opt
  import opened Wire
  import opened Socket
  import opened Connection
  import opened Protocol
  import opened Commands

  /** The reply frame `u32(4 + |body|) || u32(code) || body`. */
  function ReplyFrame(reply: Reply): (f: Bytes)
    requires |reply.body| <= MaxValue && reply.code <= ResNx
    ensures 8 <= |f| <= BufCap
  {
    StoreU32(4 + |reply.body|) + StoreU32(reply.code) + reply.body
  }

  /**
   * What the server owes a client for the byte stream `stream` it took off
   * the read buffer, starting from the key space `entries`: the stream is
   * cut into whole request frames, in order, and every frame's request is
   * executed on the key space its predecessors left, its reply frame
   * appended to the replies. `None` when the stream is not a run of whole,
   * well-formed request frames (or a reply would not fit a frame, which no
   * key space the server builds allows).
   */
  ghost function Serve(entries: KeySpace, stream: Bytes): Option<(Bytes, KeySpace)>
    decreases |stream|
  {
    if stream == [] then Some(([], entries))
    else match CheckFrame(stream)
      case Whole(len) =>
        var step := Step(entries, stream[4..4 + len]);
        if step.None? then None else Preceded(step.value.0, Serve(step.value.1, stream[4 + len..]))
      case _ => None
  }

  /** One request payload served on `entries`: its reply frame and the key space after it. */
  ghost function Step(entries: KeySpace, req: Bytes): Option<(Bytes, KeySpace)> {
    var cmd := Decode(req);
    if cmd.None? then None
    else
      var (reply, after) := Execute(entries, cmd.value);
      if |reply.body| > MaxValue then None else Some((ReplyFrame(reply), after))
  }

  /** The replies `out` ahead of what the rest of the stream is served by. */
  function Preceded(out: Bytes, rest: Option<(Bytes, KeySpace)>): Option<(Bytes, KeySpace)> {
    if rest.None? then None else Some((out + rest.value.0, rest.value.1))
  }

  /**
   * Between two points of a connection's life: the bytes consumed in
   * between (`c1` after `c0`) are served, from the key space `before`, by
   * exactly the reply bytes queued in between (`r1` after `r0`), leaving
   * the key space `after`.
   */
  ghost predicate Served(before: KeySpace, c0: Bytes, c1: Bytes, r0: Bytes, r1: Bytes, after: KeySpace) {
    && c0 <= c1 && r0 <= r1
    && Serve(before, c1[|c0|..]) == Some((r1[|r0|..], after))
  }

  /** A frame at the front of a buffer is the same frame whatever follows it. */
  lemma CheckFrameExtends(a: Bytes, b: Bytes)
    requires CheckFrame(a).Whole?
    ensures CheckFrame(a + b) == CheckFrame(a)
  {
    assert (a + b)[..4] == a[..4];
  }

  /** Serving two streams one after the other is serving their concatenation. */
  lemma {:induction false} ServeAppend(e: KeySpace, a: Bytes, b: Bytes)
    requires Serve(e, a).Some? && Serve(Serve(e, a).value.1, b).Some?
    ensures Serve(e, a + b)
            == Some((Serve(e, a).value.0 + Serve(Serve(e, a).value.1, b).value.0, Serve(Serve(e, a).value.1, b).value.1))
    decreases |a|
  {
    if a == [] {
      assert a + b == b;
      assert [] + Serve(e, b).value.0 == Serve(e, b).value.0;
    } else {
      var len := CheckFrame(a).len;
      var (out, after) := Step(e, a[4..4 + len]).value;
      ServeAppend(after, a[4 + len..], b);
      ServeAppendFrame(e, a, b, len, out, after);
    }
  }

  /** The step of `ServeAppend` for a stream `a` that starts with a whole frame of `len` payload bytes. */
  lemma ServeAppendFrame(e: KeySpace, a: Bytes, b: Bytes, len: nat, out: Bytes, after: KeySpace)
    requires a != [] && CheckFrame(a) == Whole(len) && Step(e, a[4..4 + len]) == Some((out, after))
    requires Serve(after, a[4 + len..]).Some?
    requires Serve(Serve(after, a[4 + len..]).value.1, b).Some?
    requires Serve(after, a[4 + len..] + b)
             == Some((Serve(after, a[4 + len..]).value.0 + Serve(Serve(after, a[4 + len..]).value.1, b).value.0,
                      Serve(Serve(after, a[4 + len..]).value.1, b).value.1))
    ensures Serve(e, a + b)
            == Some((Serve(e, a).value.0 + Serve(Serve(e, a).value.1, b).value.0, Serve(Serve(e, a).value.1, b).value.1))
  {
    CheckFrameExtends(a, b);
    SliceOfAppend(a, b, 4, 4 + len);
    AppendAssoc(out, Serve(after, a[4 + len..]).value.0, Serve(Serve(after, a[4 + len..]).value.1, b).value.0);
  }

  /** Slices of `a + b` that end inside `a`, and what follows them. */
  lemma SliceOfAppend(a: Bytes, b: Bytes, i: nat, j: nat)
    requires i <= j <= |a|
    ensures (a + b)[i..j] == a[i..j] && (a + b)[j..] == a[j..] + b
  {
  }

  lemma AppendAssoc(x: Bytes, y: Bytes, z: Bytes)
    ensures x + (y + z) == (x + y) + z
  {
  }

  /** Nothing consumed and nothing queued serves nothing: the key space stays. */
  lemma NothingServed(e: KeySpace, c: Bytes, r: Bytes)
    ensures Served(e, c, c, r, r, e)
  {
    assert c[|c|..] == [] && r[|r|..] == [];
  }

  /** Serving is transitive: what was served up to a midpoint and after it was served in all. */
  lemma ServedTrans(e0: KeySpace, c0: Bytes, c1: Bytes, c2: Bytes, r0: Bytes, r1: Bytes, r2: Bytes,
                    e1: KeySpace, e2: KeySpace)
    requires Served(e0, c0, c1, r0, r1, e1) && Served(e1, c1, c2, r1, r2, e2)
    ensures Served(e0, c0, c2, r0, r2, e2)
  {
    ServeAppend(e0, c1[|c0|..], c2[|c1|..]);
    SuffixSplit(c0, c1, c2);
    SuffixSplit(r0, r1, r2);
  }

  lemma SuffixSplit(x0: Bytes, x1: Bytes, x2: Bytes)
    requires x0 <= x1 <= x2
    ensures x2[|x0|..] == x1[|x0|..] + x2[|x1|..]
  {
  }

  /**
   * One whole, well-formed frame at the front of `pending` is served by its
   * reply frame: consuming it and queueing that reply keeps `Served`.
   */
  lemma FrameServed(e: KeySpace, pending: Bytes, len: nat, c0: Bytes, c1: Bytes, r0: Bytes, r1: Bytes, e1: KeySpace)
    requires ValuesFit(e) && CheckFrame(pending) == Whole(len) && Decode(pending[4..4 + len]).Some?
    requires var (reply, after) := Execute(e, Decode(pending[4..4 + len]).value);
             && c1 == c0 + pending[..4 + len] && e1 == after
             && |reply.body| <= MaxValue && r1 == r0 + ReplyFrame(reply)
    ensures Served(e, c0, c1, r0, r1, e1)
  {
    var frame := pending[..4 + len];
    assert frame[..4] == pending[..4] && frame[4..] == pending[4..4 + len];
    ServeWholeFrame(e, frame, len);
    assert c1[|c0|..] == frame && r1[|r0|..] == Step(e, frame[4..]).value.0;
  }

  /**
   * A client that sends the encoding of one request, framed, is owed the
   * reply frame of executing that request, and the key space it leaves.
   */
  lemma ServeRequest(e: KeySpace, args: seq<Bytes>)
    requires ValuesFit(e) && Encodable(args) && |args| <= MaxArgs && |Encode(args)| <= MaxMsg
    ensures var (reply, after) := Execute(e, args);
            Serve(e, StoreU32(|Encode(args)|) + Encode(args)) == Some((ReplyFrame(reply), after))
  {
    var payload := Encode(args);
    var frame := StoreU32(|payload|) + payload;
    assert frame[..4] == StoreU32(|payload|);
    assert CheckFrame(frame) == Whole(|payload|);
    assert frame[4..] == payload;
    ServeWholeFrame(e, frame, |payload|);
    StepRequest(e, args);
  }

  /** A stream that is exactly one whole frame is served by that frame's step alone. */
  lemma ServeWholeFrame(e: KeySpace, frame: Bytes, len: nat)
    requires CheckFrame(frame) == Whole(len) && |frame| == 4 + len
    ensures Serve(e, frame) == Step(e, frame[4..])
  {
    assert frame[4..4 + len] == frame[4..] && frame[4 + len..] == [];
    if Step(e, frame[4..]).Some? {
      var (out, after) := Step(e, frame[4..]).value;
      assert out + [] == out;
    }
  }

  /** The step of an encoded request is its reply frame, and the key space `Execute` leaves. */
  lemma StepRequest(e: KeySpace, args: seq<Bytes>)
    requires ValuesFit(e) && Encodable(args) && |args| <= MaxArgs && |Encode(args)| <= MaxMsg
    ensures var (reply, after) := Execute(e, args);
            Step(e, Encode(args)) == Some((ReplyFrame(reply), after))
  {
    DecodeEncode(args);
    ExecuteKeepsValuesFit(e, Encode(args));
  }

  /** A client reading a reply frame finds its length, the status code and the body. */
  lemma ReplyFrameReads(reply: Reply)
    requires |reply.body| <= MaxValue && reply.code <= ResNx
    ensures var f := ReplyFrame(reply);
            && LoadU32(f[..4]) == |f| - 4
            && LoadU32(f[4..8]) == reply.code
            && f[8..] == reply.body
  {
    var f := ReplyFrame(reply);
    assert f[..4] == StoreU32(4 + |reply.body|);
    assert f[4..8] == StoreU32(reply.code);
  }

  /**
   * The request at the front of `buf` ends the connection: its declared
   * length is above `MaxMsg`, or `parse_req` rejects its payload.
   */
  ghost predicate Refused(buf: Bytes) {
    match CheckFrame(buf)
    case TooLong => true
    case Whole(len) => Decode(buf[4..4 + len]).None?
    case Short => false
  }

  /**
   * `try_one_request` of the key-value server: a short frame changes
   * nothing; a declared length above `MaxMsg`, or a payload `parse_req`
   * rejects, ends the connection; a well-formed request is executed, its
   * reply frame queued and flushed, and its frame removed from the read
   * buffer, the outcome of the flush's last write, `from` outcomes in,
   * deciding the state. So the connection ends only on a refused request
   * or a failed write. `more` says whether the flush finished, back in
   * `STATE_REQ`.
   */
  method TryOneRequest(c: Conn, store: Store) returns (more: bool, ghost from: nat)
    requires c.Valid() && c.state == Req && store.Valid()
    modifies c, c.rBuf, c.wBuf, c.sock, store
    ensures c.Valid() && c.Ready() && store.Valid()
    ensures var pending := old(c.rBuf[..c.rBufSize]);
            match CheckFrame(pending)
            case Short => !more && unchanged(c, c.rBuf, c.wBuf, c.sock, store)
            case TooLong => && !more && c.state == End && c.rBufSize == old(c.rBufSize)
                            && c.consumed == old(c.consumed) && unchanged(c.rBuf, c.wBuf, c.sock, store)
            case Whole(len) => Answered(c, store, pending, len, more, from)
    ensures more ==> c.state == Req && c.rBufSize < old(c.rBufSize)
    ensures !more && c.state == Req ==> CheckFrame(c.rBuf[..c.rBufSize]) == Short
    ensures c.state == Res ==> Flushed(old(c.sock.writeResults), from, c.sock.writeResults, Res)
    ensures c.state == End ==> || Refused(c.rBuf[..c.rBufSize])
                               || Flushed(old(c.sock.writeResults), from, c.sock.writeResults, End)
    ensures c.sock.writeResults == old(c.sock.writeResults) || LastRetry(old(c.sock.writeResults), from, c.sock.writeResults)
    ensures Served(old(store.entries), old(c.consumed), c.consumed, old(c.replies), c.replies, store.entries)
    ensures c.sock.inbound == old(c.sock.inbound) && c.sock.readResults == old(c.sock.readResults)
    ensures c.sock.lastRead == old(c.sock.lastRead)
    ensures |c.sock.writeResults| <= old(|c.sock.writeResults|)
  {
    ghost var pending := c.rBuf[..c.rBufSize];
    NothingServed(store.entries, c.consumed, c.replies);
    from := 0;
    if c.rBufSize < 4 {
      return false, from;
    }
    assert pending[..4] == c.rBuf[..4];
    var len := LoadU32(c.rBuf[..4]);
    if len > MaxMsg {
      c.state := End;
      assert Refused(pending);
      return false, from;
    }
    if 4 + len > c.rBufSize {
      return false, from;
    }
    assert CheckFrame(pending) == Whole(len);
    more, from := Answer(c, store, len);
    if Decode(pending[4..4 + len]).None? {
      assert c.rBuf[..c.rBufSize] == pending;
    }
  }

  /**
   * What answering the whole frame at the front of `pending`, of `len`
   * payload bytes, did: a rejected payload ended the connection and changed
   * nothing else; an accepted one changed the key space as `Execute` does,
   * queued its reply frame, left the bytes after the frame buffered, and
   * was flushed, the last write, `from` outcomes in, deciding the state.
   */
  twostate predicate Answered(c: Conn, store: Store, pending: Bytes, len: nat, more: bool, from: nat)
    requires 4 + len <= |pending| && len <= MaxMsg && old(store.Valid())
    requires c.rBufSize <= c.rBuf.Length
    reads c, c.rBuf, c.wBuf, c.sock, store
  {
    var req := pending[4..4 + len];
    && (Decode(req).None? ==>
          && !more && c.state == End && c.rBufSize == old(c.rBufSize) && c.consumed == old(c.consumed)
          && unchanged(c.rBuf, c.wBuf, c.sock) && store.entries == old(store.entries))
    && (Decode(req).Some? ==>
          var (reply, after) := Execute(old(store.entries), Decode(req).value);
          && store.entries == after
          && c.replies == old(c.replies) + ReplyFrame(reply)
          && c.consumed == old(c.consumed) + pending[..4 + len]
          && c.rBufSize == old(c.rBufSize) - (4 + len)
          && c.rBuf[..c.rBufSize] == pending[4 + len..]
          && (more <==> c.state == Req)
          && Flushed(old(c.sock.writeResults), from, c.sock.writeResults, c.state))
  }

  /** One whole frame of `len` payload bytes: `do_request`, the reply frame, the `memmove` and the flush. */
  method Answer(c: Conn, store: Store, len: nat) returns (more: bool, ghost from: nat)
    requires c.Valid() && c.state == Req && store.Valid()
    requires CheckFrame(c.rBuf[..c.rBufSize]) == Whole(len)
    modifies c, c.rBuf, c.wBuf, c.sock, store
    ensures c.Valid() && c.Ready() && store.Valid()
    ensures Answered(c, store, old(c.rBuf[..c.rBufSize]), len, more, from)
    ensures Served(old(store.entries), old(c.consumed), c.consumed, old(c.replies), c.replies, store.entries)
    ensures more ==> c.state == Req
    ensures c.sock.inbound == old(c.sock.inbound) && c.sock.readResults == old(c.sock.readResults)
    ensures c.sock.lastRead == old(c.sock.lastRead)
    ensures |c.sock.writeResults| <= old(|c.sock.writeResults|)
  {
    assert 4 + len <= c.rBufSize;
    SliceOfPrefix(c.rBuf[..], c.rBufSize, 4, 4 + len);
    ghost var e0, c0, r0, pending := store.entries, c.consumed, c.replies, c.rBuf[..c.rBufSize];
    var err, reply := store.DoRequest(c.rBuf[4..4 + len]);
    from := 0;
    if err != 0 {
      c.state := End;
      NothingServed(e0, c0, r0);
      return false, from;
    }
    more, from := c.Respond(ReplyFrame(reply), 4 + len);
    FrameServed(e0, pending, len, c0, c.consumed, r0, c.replies, store.entries);
  }

  /**
   * `try_fill_buffer` of the key-value server: one read, then requests are
   * answered one by one, in arrival order, while each reply goes out in
   * full. When it returns true a read brought bytes, and what is left in
   * the buffer is less than a whole frame. The connection waits in
   * `STATE_RES` only when the last write, `wfrom` outcomes in, would
   * block, and ends only when the read failed or met the end of the
   * stream, a request was refused, or the last write failed.
   */
  method TryFillBuffer(c: Conn, store: Store) returns (more: bool, ghost wfrom: nat)
    requires c.Valid() && c.state == Req && c.rBufSize < BufCap && store.Valid()
    modifies c, c.rBuf, c.wBuf, c.sock, store
    ensures c.Valid() && c.Ready() && store.Valid()
    ensures more ==> c.state == Req && CheckFrame(c.rBuf[..c.rBufSize]) == Short
    ensures more ==> |c.sock.readResults| < old(|c.sock.readResults|)
    ensures var (e, k) := Retry(old(c.sock.readResults));
            && k <= |old(c.sock.readResults)| && c.sock.readResults == old(c.sock.readResults)[k..]
            && (e != WouldBlock ==> (more <==> c.state == Req))
            && (e == WouldBlock ==> && !more && c.state == Req && c.rBufSize == old(c.rBufSize)
                                    && c.rBuf[..c.rBufSize] == old(c.rBuf[..c.rBufSize])
                                    && c.consumed == old(c.consumed) && c.replies == old(c.replies)
                                    && store.entries == old(store.entries))
            && c.sock.lastRead == Clamp(e, Min(BufCap - old(c.rBufSize), |old(c.sock.inbound)|))
    ensures c.state == End ==> || ReadEnded(Retry(old(c.sock.readResults)).0, c.sock.lastRead)
                               || Refused(c.rBuf[..c.rBufSize])
                               || Flushed(old(c.sock.writeResults), wfrom, c.sock.writeResults, End)
    ensures c.state == Res ==> Flushed(old(c.sock.writeResults), wfrom, c.sock.writeResults, Res)
    ensures c.sock.writeResults == old(c.sock.writeResults) || LastRetry(old(c.sock.writeResults), wfrom, c.sock.writeResults)
    ensures Served(old(store.entries), old(c.consumed), c.consumed, old(c.replies), c.replies, store.entries)
  {
    ghost var e0, c0, r0 := store.entries, c.consumed, c.replies;
    NothingServed(e0, c0, r0);
    ghost var script := c.sock.writeResults;
    ghost var pos: nat := 0;
    wfrom := 0;
    assert script[0..] == script;
    var got := c.Receive();
    if !got {
      return false, wfrom;
    }
    ghost var unread, last := c.sock.readResults, c.sock.lastRead;
    var again := true;
    while again
      invariant c.Valid() && store.Valid()
      invariant Served(e0, c0, c.consumed, r0, c.replies, store.entries)
      invariant c.sock.readResults == unread && c.sock.lastRead == last
      invariant again ==> c.state == Req
      invariant !again ==> c.Ready() && (c.state == Req ==> CheckFrame(c.rBuf[..c.rBufSize]) == Short)
      invariant pos <= |script| && c.sock.writeResults == script[pos..]
      invariant c.sock.writeResults == script || LastRetry(script, wfrom, c.sock.writeResults)
      invariant !again && c.state == Res ==> Flushed(script, wfrom, c.sock.writeResults, Res)
      invariant !again && c.state == End ==> || Refused(c.rBuf[..c.rBufSize])
                                             || Flushed(script, wfrom, c.sock.writeResults, End)
      decreases again, c.rBufSize
    {
      ghost var e1, c1, r1 := store.entries, c.consumed, c.replies;
      ghost var f: nat;
      ghost var now := c.sock.writeResults;
      again, f := TryOneRequest(c, store);
      ServedTrans(e0, c0, c1, c.consumed, r0, r1, c.replies, e1, store.entries);
      pos, wfrom := NextRetry(script, pos, wfrom, f, now, c.sock.writeResults);
    }
    more := c.state == Req;
  }

  /**
   * `state_req`: reads and answers until a read would block or the
   * connection leaves `STATE_REQ`, serving every frame it consumes.
   * `from` is where the last `try_fill_buffer` began in the read outcomes,
   * and `wfrom` where the last write began in the write outcomes. The
   * connection stays in `STATE_REQ` only when that read would block, waits
   * in `STATE_RES` only when that write would block, and ends only when
   * that read failed or met the end of the stream, a request was refused,
   * or that write failed.
   */
  method StateReq(c: Conn, store: Store) returns (ghost from: nat, ghost wfrom: nat)
    requires c.Valid() && c.Ready() && c.state == Req && store.Valid()
    modifies c, c.rBuf, c.wBuf, c.sock, store
    ensures c.Valid() && c.Ready() && store.Valid()
    ensures Served(old(store.entries), old(c.consumed), c.consumed, old(c.replies), c.replies, store.entries)
    ensures LastRetry(old(c.sock.readResults), from, c.sock.readResults)
    ensures c.state == Req ==> Retry(old(c.sock.readResults)[from..]).0 == WouldBlock
    ensures c.state == Res ==> Flushed(old(c.sock.writeResults), wfrom, c.sock.writeResults, Res)
    ensures c.state == End ==> || ReadEnded(Retry(old(c.sock.readResults)[from..]).0, c.sock.lastRead)
                               || Refused(c.rBuf[..c.rBufSize])
                               || Flushed(old(c.sock.writeResults), wfrom, c.sock.writeResults, End)
  {
    ghost var e0, c0, r0 := store.entries, c.consumed, c.replies;
    NothingServed(e0, c0, r0);
    ghost var script := c.sock.readResults;
    ghost var pos: nat := 0;
    from := 0;
    assert script[0..] == script;
    ghost var writes := c.sock.writeResults;
    ghost var wpos: nat := 0;
    wfrom := 0;
    assert writes[0..] == writes;
    var more := true;
    while more
      invariant c.Valid() && c.Ready() && store.Valid()
      invariant Served(e0, c0, c.consumed, r0, c.replies, store.entries)
      invariant pos <= |script| && c.sock.readResults == script[pos..]
      invariant !more ==> LastRetry(script, from, c.sock.readResults) && (c.state == Req ==> Retry(script[from..]).0 == WouldBlock)
      invariant more ==> c.state == Req
      invariant wpos <= |writes| && c.sock.writeResults == writes[wpos..]
      invariant !more && c.state == Res ==> Flushed(writes, wfrom, c.sock.writeResults, Res)
      invariant !more && c.state == End ==> || ReadEnded(Retry(script[from..]).0, c.sock.lastRead)
                                            || Refused(c.rBuf[..c.rBufSize])
                                            || Flushed(writes, wfrom, c.sock.writeResults, End)
      decreases |c.sock.readResults|, more
    {
      ghost var e1, c1, r1 := store.entries, c.consumed, c.replies;
      from := pos;
      RetryUses(script[from..]);
      ghost var f: nat;
      ghost var now, unread := c.sock.writeResults, c.sock.readResults;
      more, f := TryFillBuffer(c, store);
      ServedTrans(e0, c0, c1, c.consumed, r0, r1, c.replies, e1, store.entries);
      pos := from + Retry(script[from..]).1;
      assert script[from..][Retry(script[from..]).1..] == script[pos..];
      wpos, wfrom := NextRetry(writes, wpos, wfrom, f, now, c.sock.writeResults);
    }
  }

  /**
   * `connection_io` for a live connection: it keeps every invariant, and
   * the bytes the client has been sent are a prefix of the reply frames
   * queued, in order. From `STATE_REQ` it stops as `state_req` does,
   * `from` being where its last read began; from `STATE_RES` the last
   * write, `wfrom` outcomes in, decides the state, as in `state_res`.
   */
  method ConnectionIo(c: Conn, store: Store) returns (ghost from: nat, ghost wfrom: nat)
    requires c.Valid() && c.Ready() && c.state != End && store.Valid()
    modifies c, c.rBuf, c.wBuf, c.sock, store
    ensures c.Valid() && c.Ready() && store.Valid()
    ensures c.sock.sent <= c.replies
    ensures Served(old(store.entries), old(c.consumed), c.consumed, old(c.replies), c.replies, store.entries)
    ensures old(c.state) == Req ==>
              && LastRetry(old(c.sock.readResults), from, c.sock.readResults)
              && (c.state == Req ==> Retry(old(c.sock.readResults)[from..]).0 == WouldBlock)
              && (c.state == Res ==> Flushed(old(c.sock.writeResults), wfrom, c.sock.writeResults, Res))
              && (c.state == End ==> || ReadEnded(Retry(old(c.sock.readResults)[from..]).0, c.sock.lastRead)
                                     || Refused(c.rBuf[..c.rBufSize])
                                     || Flushed(old(c.sock.writeResults), wfrom, c.sock.writeResults, End))
    ensures old(c.state) == Res ==> Flushed(old(c.sock.writeResults), wfrom, c.sock.writeResults, c.state)
  {
    if c.state == Req {
      from, wfrom := StateReq(c, store);
    } else {
      from := 0;
      wfrom := c.StateRes();
      NothingServed(store.entries, c.consumed, c.replies);
    }
    assert c.replies[..|c.sock.sent|] == c.sock.sent;
  }
}
