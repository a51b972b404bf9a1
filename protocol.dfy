/**
 * The request payload of the key-value server: an argument count followed
 * by that many length-prefixed byte strings,
 * `argc || (len_1 || bytes_1) || ... || (len_argc || bytes_argc)`,
 * every integer a little-endian `uint32_t`.
 */
module Protocol {
  import opened Opt
  import opened Wire

  /** `k_max_args`: the largest argument count a request may declare. */
  const MaxArgs: nat := 1024

  /** Every argument's length fits the 4-byte length prefix. */
  predicate Encodable(args: seq<Bytes>) {
    forall i :: 0 <= i < |args| ==> |args[i]| < U32Limit
  }

  /** The arguments, each preceded by its length. */
  function EncodeArgs(args: seq<Bytes>): (b: Bytes)
    requires Encodable(args)
  {
    if args == [] then [] else StoreU32(|args[0]|) + args[0] + EncodeArgs(args[1..])
  }

  /** A whole request payload for the argument vector `args`. */
  function Encode(args: seq<Bytes>): (b: Bytes)
    requires Encodable(args) && |args| < U32Limit
    ensures |b| >= 4 && b[..4] == StoreU32(|args|)
  {
    StoreU32(|args|) + EncodeArgs(args)
  }

  /**
   * The loop of `parse_req` over the bytes `rest` not yet read, with `count`
   * arguments still to read: the arguments and the bytes after the last one,
   * or `None` when a length prefix or an argument would run past the end.
   */
  function ParseArgs(rest: Bytes, count: nat): (r: Option<(seq<Bytes>, Bytes)>)
    ensures r.Some? ==> |r.value.0| == count && |r.value.1| <= |rest|
  {
    if count == 0 then Some(([], rest))
    else if |rest| < 4 then None
    else
      var size := LoadU32(rest[..4]);
      if 4 + size > |rest| then None
      else
        var tail := ParseArgs(rest[4 + size..], count - 1);
        if tail.None? then None else Some(([rest[4..4 + size]] + tail.value.0, tail.value.1))
  }

  /**
   * `parse_req` as a function: `None` for fewer than 4 bytes, more than
   * `MaxArgs` arguments, a truncated argument, or bytes left over after the
   * last argument.
   */
  function Decode(data: Bytes): (r: Option<seq<Bytes>>)
    ensures |data| < 4 ==> r.None?
    ensures |data| >= 4 && LoadU32(data[..4]) > MaxArgs ==> r.None?
    ensures r.Some? ==> |r.value| == LoadU32(data[..4]) <= MaxArgs
  {
    if |data| < 4 then None
    else
      var argc := LoadU32(data[..4]);
      if argc > MaxArgs then None
      else
        var parsed := ParseArgs(data[4..], argc);
        if parsed.None? || parsed.value.1 != [] then None else Some(parsed.value.0)
  }

  /** Parsing an encoding followed by anything gives back the arguments and leaves exactly what followed. */
  lemma {:induction false} ParseEncoded(args: seq<Bytes>, tail: Bytes)
    requires Encodable(args)
    ensures ParseArgs(EncodeArgs(args) + tail, |args|) == Some((args, tail))
    decreases |args|
  {
    if args != [] {
      var n := |args[0]|;
      var more := EncodeArgs(args[1..]) + tail;
      var e := EncodeArgs(args) + tail;
      assert e == StoreU32(n) + args[0] + more;
      assert e[..4] == StoreU32(n) && e[4..4 + n] == args[0] && e[4 + n..] == more;
      assert Encodable(args[1..]);
      ParseEncoded(args[1..], tail);
      assert [args[0]] + args[1..] == args;
    } else {
      assert EncodeArgs(args) + tail == tail;
    }
  }

  /** `parse_req` accepts the encoding of every encodable vector of at most `MaxArgs` arguments, and returns it. */
  lemma DecodeEncode(args: seq<Bytes>)
    requires Encodable(args) && |args| <= MaxArgs
    ensures Decode(Encode(args)) == Some(args)
  {
    var data := Encode(args);
    assert data[4..] == EncodeArgs(args) + [];
    ParseEncoded(args, []);
  }

  /** What `ParseArgs` reads is exactly the encoding of what it returns. */
  lemma {:induction false} ParsedIsEncoded(rest: Bytes, count: nat)
    requires ParseArgs(rest, count).Some?
    ensures Encodable(ParseArgs(rest, count).value.0)
    ensures rest == EncodeArgs(ParseArgs(rest, count).value.0) + ParseArgs(rest, count).value.1
    decreases count
  {
    if count > 0 {
      var size := LoadU32(rest[..4]);
      var next := rest[4 + size..];
      ParsedIsEncoded(next, count - 1);
      var tail := ParseArgs(next, count - 1).value;
      var arg := rest[4..4 + size];
      EncodeArgsCons(arg, tail.0);
      StoreLoadU32(rest[..4]);
      Reassemble(rest, size, EncodeArgs(tail.0), tail.1);
    } else {
      assert EncodeArgs([]) + rest == rest;
    }
  }

  lemma EncodeArgsCons(arg: Bytes, more: seq<Bytes>)
    requires Encodable(more) && |arg| < U32Limit
    ensures Encodable([arg] + more)
    ensures EncodeArgs([arg] + more) == StoreU32(|arg|) + arg + EncodeArgs(more)
  {
    assert ([arg] + more)[1..] == more;
  }

  lemma Reassemble(rest: Bytes, size: nat, encoded: Bytes, left: Bytes)
    requires 4 + size <= |rest| && rest[4 + size..] == encoded + left
    ensures rest == rest[..4] + rest[4..4 + size] + encoded + left
  {
    assert rest == rest[..4] + rest[4..4 + size] + rest[4 + size..];
  }

  /** Every payload `parse_req` accepts is the encoding of the arguments it returns: nothing is skipped. */
  lemma EncodeDecode(data: Bytes)
    requires Decode(data).Some?
    ensures Encodable(Decode(data).value) && Encode(Decode(data).value) == data
  {
    ParsedIsEncoded(data[4..], LoadU32(data[..4]));
    StoreLoadU32(data[..4]);
    assert data == data[..4] + data[4..];
  }

  /** The encoding is at least four bytes per argument and its prefix, plus every argument's bytes. */
  lemma {:induction false} EncodedLength(args: seq<Bytes>, i: nat)
    requires Encodable(args) && i < |args|
    ensures |EncodeArgs(args)| >= 4 * |args| + |args[i]|
  {
    if i > 0 {
      assert Encodable(args[1..]);
      EncodedLength(args[1..], i - 1);
    } else if |args| > 1 {
      assert Encodable(args[1..]);
      EncodedLength(args[1..], 0);
    }
  }

  /** An argument of an accepted payload is shorter than the payload by the prefixes at least. */
  lemma DecodedArgFits(data: Bytes, i: nat)
    requires Decode(data).Some? && i < |Decode(data).value|
    ensures |Decode(data).value[i]| + 4 + 4 * |Decode(data).value| <= |data|
  {
    EncodeDecode(data);
    EncodedLength(Decode(data).value, i);
  }

  /**
   * `parse_req`: the `while (s--)` loop over the offset `pos`, appending
   * each argument to `out`; `rc` is 0 on success and -1 on any error.
   */
  method ParseReq(data: Bytes) returns (rc: int, out: seq<Bytes>)
    ensures rc == 0 || rc == -1
    ensures rc == 0 <==> Decode(data).Some?
    ensures rc == 0 ==> out == Decode(data).value
  {
    out := [];
    if |data| < 4 {
      return -1, out;
    }
    var s: nat := LoadU32(data[..4]);
    if s > MaxArgs {
      return -1, out;
    }
    var pos: nat := 4;
    ghost var whole := ParseArgs(data[4..], s);
    if whole.Some? {
      assert out + whole.value.0 == whole.value.0;
    }
    while s > 0
      invariant pos <= |data|
      invariant whole == Prepend(out, ParseArgs(data[pos..], s))
      decreases s
    {
      var ok, arg, next := ReadArg(data, pos, s, out);
      if !ok {
        return -1, out;
      }
      out := out + [arg];
      pos := next;
      s := s - 1;
    }
    if pos != |data| {
      return -1, out;
    }
    rc := 0;
  }

  /** One pass of the `parse_req` loop at offset `pos`, read on the bytes from `pos` on. */
  lemma ParseFrom(data: Bytes, pos: nat, count: nat)
    requires pos <= |data| && count > 0
    ensures pos + 4 > |data| ==> ParseArgs(data[pos..], count).None?
    ensures pos + 4 <= |data| ==>
              var size := LoadU32(data[pos..pos + 4]);
              && (pos + 4 + size > |data| ==> ParseArgs(data[pos..], count).None?)
              && (pos + 4 + size <= |data| ==>
                    ParseArgs(data[pos..], count)
                    == Prepend([data[pos + 4..pos + 4 + size]], ParseArgs(data[pos + 4 + size..], count - 1)))
  {
    var rest := data[pos..];
    if pos + 4 <= |data| {
      assert rest[..4] == data[pos..pos + 4];
      var size := LoadU32(data[pos..pos + 4]);
      if pos + 4 + size <= |data| {
        assert rest[4..4 + size] == data[pos + 4..pos + 4 + size];
        assert rest[4 + size..] == data[pos + 4 + size..];
      }
    }
  }

  /**
   * One pass of the loop of `parse_req` at offset `pos`: the length prefix
   * and the argument after it, when both lie within `data`; `done` holds the
   * arguments of the earlier passes.
   */
  method ReadArg(data: Bytes, pos: nat, count: nat, ghost done: seq<Bytes>) returns (ok: bool, arg: Bytes, next: nat)
    requires pos <= |data| && count > 0
    ensures !ok ==> ParseArgs(data[pos..], count).None?
    ensures ok ==> pos < next <= |data|
    ensures ok ==> Prepend(done, ParseArgs(data[pos..], count)) == Prepend(done + [arg], ParseArgs(data[next..], count - 1))
  {
    ParseFrom(data, pos, count);
    if pos + 4 > |data| {
      return false, [], pos;
    }
    var sz := LoadU32(data[pos..pos + 4]);
    if pos + 4 + sz > |data| {
      return false, [], pos;
    }
    ParseStep(data, pos, count, done);
    arg := data[pos + 4..pos + 4 + sz];
    next := pos + 4 + sz;
    ok := true;
  }

  /** The loop of `parse_req` keeps the arguments read so far in front of what the rest of it reads. */
  lemma ParseStep(data: Bytes, pos: nat, count: nat, out: seq<Bytes>)
    requires pos + 4 <= |data| && count > 0
    requires pos + 4 + LoadU32(data[pos..pos + 4]) <= |data|
    ensures var next := pos + 4 + LoadU32(data[pos..pos + 4]);
            Prepend(out, ParseArgs(data[pos..], count))
            == Prepend(out + [data[pos + 4..next]], ParseArgs(data[next..], count - 1))
  {
    var next := pos + 4 + LoadU32(data[pos..pos + 4]);
    ParseFrom(data, pos, count);
    PrependStep(out, data[pos + 4..next], ParseArgs(data[next..], count - 1));
  }

  /** The arguments already parsed, in front of what the rest of the loop parses. */
  function Prepend(done: seq<Bytes>, r: Option<(seq<Bytes>, Bytes)>): Option<(seq<Bytes>, Bytes)> {
    match r
    case None => None
    case Some((rest, end)) => Some((done + rest, end))
  }

  lemma PrependStep(done: seq<Bytes>, arg: Bytes, r: Option<(seq<Bytes>, Bytes)>)
    ensures Prepend(done, Prepend([arg], r)) == Prepend(done + [arg], r)
  {
    if r.Some? {
      assert done + ([arg] + r.value.0) == (done + [arg]) + r.value.0;
    }
  }
}
