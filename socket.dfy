/**
 * The non-blocking socket a connection reads and writes, seen from the
 * server: every `read` and `write` call has an outcome (a byte count, an
 * interruption, would-block or an error), and the outcomes of the coming
 * calls are held by the peer object in the order they will happen.
 */
module Socket {
  import opened Opt
  import opened Wire

  /**
   * The outcome of one `read` or `write`: `rv >= 0`, or `rv < 0` with
   * `errno` EINTR, EAGAIN or anything else.
   */
  datatype IoResult = Done(count: nat) | Interrupted | WouldBlock | Failed

  function Min(a: nat, b: nat): nat {
    if a <= b then a else b
  }

  /** A call whose outcome allows `count` bytes moves at most `limit` of them. */
  function Clamp(e: IoResult, limit: nat): (r: IoResult)
    ensures r.Done? <==> e.Done?
    ensures r.Done? ==> r.count <= limit && r.count <= e.count
    ensures !r.Done? ==> r == e
  {
    if e.Done? then Done(Min(e.count, limit)) else e
  }

  /** The outcome of the next call; with nothing left to happen the socket would block. */
  function Next(results: seq<IoResult>): IoResult {
    if results == [] then WouldBlock else results[0]
  }

  /**
   * The retry loop `do { rv = call(); } while (rv < 0 && errno == EINTR)`:
   * the outcome of the first call that is not interrupted, and how many
   * outcomes the loop used up.
   */
  function Retry(results: seq<IoResult>): (r: (IoResult, nat))
    ensures r.0 != Interrupted
  {
    if results == [] then (WouldBlock, 0)
    else if results[0] == Interrupted then
      var rest := Retry(results[1..]);
      (rest.0, rest.1 + 1)
    else (results[0], 1)
  }

  /**
   * The retry loop uses up the interrupted outcomes and the one after them:
   * that last one is its outcome, unless the outcomes ran out and the
   * socket would block. It uses up none only when none are left.
   */
  lemma {:induction false} RetryUses(results: seq<IoResult>)
    ensures var (e, k) := Retry(results);
            && k <= |results|
            && (k == 0 <==> results == [])
            && (forall i :: 0 <= i < k - 1 ==> results[i] == Interrupted)
            && ((k > 0 && results[k - 1] == e) || (k == |results| && e == WouldBlock))
  {
    if results != [] && results[0] == Interrupted {
      var rest := results[1..];
      RetryUses(rest);
      var k := Retry(rest).1;
      forall i | 0 <= i < k
        ensures results[i] == Interrupted
      {
        if i > 0 {
          assert results[i] == rest[i - 1];
        }
      }
      if k > 0 {
        assert results[k] == rest[k - 1];
      }
    }
  }

  /**
   * The last of a run of retry loops over `script` began `from` outcomes
   * in, and `now` is what it left: the run stopped right after that loop.
   */
  ghost predicate LastRetry(script: seq<IoResult>, from: nat, now: seq<IoResult>) {
    && from <= |script|
    && from + Retry(script[from..]).1 <= |script|
    && now == script[from + Retry(script[from..]).1..]
  }

  /** A run of retry loops always uses up an outcome, unless none was left to use. */
  lemma LastRetryUses(script: seq<IoResult>, from: nat)
    requires LastRetry(script, from, script)
    ensures script == []
  {
    RetryUses(script[from..]);
  }

  /** A retry loop that began `from` outcomes into a suffix of `script` began `pos + from` outcomes into `script`. */
  lemma LastRetryShift(script: seq<IoResult>, pos: nat, from: nat, now: seq<IoResult>)
    requires pos <= |script| && LastRetry(script[pos..], from, now)
    ensures LastRetry(script, pos + from, now)
    ensures Retry(script[pos + from..]) == Retry(script[pos..][from..])
  {
    assert script[pos..][from..] == script[pos + from..];
  }

  /**
   * One step of a run over `script`, already used up to `pos`: it either
   * used no outcome of what was left, `now`, or ran retry loops whose last
   * began `from` outcomes into `now`, leaving `after`. `next` is how far
   * the run has now used `script`, and `latest` where its last retry loop
   * began (`last` if the step ran none).
   */
  lemma NextRetry(script: seq<IoResult>, pos: nat, last: nat, from: nat, now: seq<IoResult>, after: seq<IoResult>)
    returns (next: nat, latest: nat)
    requires pos <= |script| && now == script[pos..]
    requires after == now || LastRetry(now, from, after)
    ensures next <= |script| && after == script[next..]
    ensures LastRetry(now, from, after) ==>
              && latest == pos + from && LastRetry(script, latest, after)
              && Retry(script[latest..]) == Retry(now[from..])
    ensures !LastRetry(now, from, after) ==> next == pos && latest == last
  {
    if LastRetry(now, from, after) {
      LastRetryShift(script, pos, from, after);
      latest := pos + from;
      next := latest + Retry(script[latest..]).1;
    } else {
      next, latest := pos, last;
    }
  }

  /**
   * The retry loop of `try_flush_buffer` as written,
   * `do { rv = write(...); } while (rv < 0 && errno == EAGAIN)`: calls
   * that would block are repeated and an interrupted call ends the loop.
   * `None` when every remaining call would block: the loop spins.
   */
  function FlushRetryAsWritten(results: seq<IoResult>): (r: Option<IoResult>)
    ensures r.Some? ==> r.value in results
  {
    if results == [] then None
    else if results[0] == WouldBlock then FlushRetryAsWritten(results[1..])
    else Some(results[0])
  }

  /** As written, the loop never ends in would-block: the `EAGAIN` test after it can never hold. */
  lemma {:induction false} AsWrittenNeverWouldBlock(results: seq<IoResult>)
    ensures FlushRetryAsWritten(results) != Some(WouldBlock)
  {
    if results != [] && results[0] == WouldBlock {
      AsWrittenNeverWouldBlock(results[1..]);
    }
  }

  /** As written, an interrupted write is taken for a failure, where the intended loop writes again. */
  lemma AsWrittenFailsOnInterrupt()
    ensures FlushRetryAsWritten([Interrupted, Done(8)]) == Some(Interrupted)
    ensures Retry([Interrupted, Done(8)]) == (Done(8), 2)
  {
  }

  /** As written, a socket that stays full keeps the loop spinning; the intended loop stops and waits for `poll`. */
  lemma AsWrittenSpins()
    ensures FlushRetryAsWritten([WouldBlock, WouldBlock]) == None
    ensures Retry([WouldBlock, WouldBlock]) == (WouldBlock, 1)
  {
  }

  /**
   * The retry loop after `used` outcomes, all interrupted: the next outcome
   * decides, unless none is left.
   */
  lemma RetryStep(results: seq<IoResult>, used: nat)
    requires used <= |results|
    requires Retry(results) == (Retry(results[used..]).0, Retry(results[used..]).1 + used)
    ensures used == |results| ==> Retry(results) == (WouldBlock, used)
    ensures used < |results| && results[used] == Interrupted ==>
              Retry(results) == (Retry(results[used + 1..]).0, Retry(results[used + 1..]).1 + used + 1)
    ensures used < |results| && results[used] != Interrupted ==> Retry(results) == (results[used], used + 1)
  {
    var rest := results[used..];
    if used < |results| {
      assert rest[0] == results[used] && rest[1..] == results[used + 1..];
      if results[used] == Interrupted {
        assert Retry(rest) == (Retry(rest[1..]).0, Retry(rest[1..]).1 + 1);
      } else {
        assert Retry(rest) == (results[used], 1);
      }
    } else {
      assert rest == [];
    }
  }

  /**
   * The other end of a connection, and the kernel between: the bytes the
   * client has sent that are not read yet, the outcomes of the coming calls,
   * every byte read from or written to the socket so far, and what the
   * latest `read` returned.
   */
  class Peer {
    var inbound: Bytes
    var readResults: seq<IoResult>
    var writeResults: seq<IoResult>
    ghost var received: Bytes
    ghost var sent: Bytes
    ghost var lastRead: IoResult

    /** A socket nothing has been read from or written to yet. */
    constructor (inbound: Bytes, readResults: seq<IoResult>, writeResults: seq<IoResult>)
      ensures this.inbound == inbound && this.readResults == readResults && this.writeResults == writeResults
      ensures received == [] && sent == [] && lastRead == WouldBlock
    {
      this.inbound := inbound;
      this.readResults := readResults;
      this.writeResults := writeResults;
      received := [];
      sent := [];
      lastRead := WouldBlock;
    }

    /**
     * `read(fd, &buf[start], cap)`: copies the bytes the outcome allows,
     * at most `cap` and at most what the client has sent, into
     * `buf[start..]`. A count of 0 is the end of the stream.
     */
    method Read(buf: array<byte>, start: nat, cap: nat) returns (r: IoResult)
      requires start + cap <= buf.Length
      modifies this, buf
      ensures r == Clamp(Next(old(readResults)), Min(cap, |old(inbound)|)) && lastRead == r
      ensures readResults == if old(readResults) == [] then [] else old(readResults)[1..]
      ensures r.Done? ==> && buf[..] == old(buf[..start]) + old(inbound)[..r.count] + old(buf[start + r.count..])
                          && inbound == old(inbound)[r.count..]
                          && received == old(received) + old(inbound)[..r.count]
      ensures !r.Done? ==> buf[..] == old(buf[..]) && inbound == old(inbound) && received == old(received)
      ensures writeResults == old(writeResults) && sent == old(sent)
    {
      r := Clamp(Next(readResults), Min(cap, |inbound|));
      lastRead := r;
      if readResults != [] {
        readResults := readResults[1..];
      }
      if r.Done? {
        var i := 0;
        while i < r.count
          invariant i <= r.count
          modifies buf
          invariant buf[..] == old(buf[..start]) + inbound[..i] + old(buf[start + i..])
        {
          buf[start + i] := inbound[i];
          i := i + 1;
        }
        received := received + inbound[..r.count];
        inbound := inbound[r.count..];
      }
    }

    /** `write(fd, &buf[from], to - from)`: the bytes the outcome allows, at most `to - from`, reach the client. */
    method Write(buf: array<byte>, from: nat, to: nat) returns (r: IoResult)
      requires from <= to <= buf.Length
      modifies this
      ensures r == Clamp(Next(old(writeResults)), to - from)
      ensures writeResults == if old(writeResults) == [] then [] else old(writeResults)[1..]
      ensures r.Done? ==> sent == old(sent) + buf[from..from + r.count]
      ensures !r.Done? ==> sent == old(sent)
      ensures inbound == old(inbound) && readResults == old(readResults) && received == old(received)
      ensures lastRead == old(lastRead)
    {
      r := Clamp(Next(writeResults), to - from);
      if writeResults != [] {
        writeResults := writeResults[1..];
      }
      if r.Done? {
        sent := sent + buf[from..from + r.count];
      }
    }
  }
}
