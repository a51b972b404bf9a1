# redis_clone: the hash table and the two non-blocking servers

This project models the core of a small Redis-like server written in C++
and proves properties of the model in Dafny. The core has three parts.

- **The hash map (`ch_9/hashtable.*`).** An intrusive chained hash table.
  It resizes progressively: once the load factor reaches 8, a table of twice
  the capacity becomes the newer generation. Every lookup, insertion and
  removal then moves at most 128 nodes from the older generation into it.
  (`hashtable.dfy`, module `HashTable`.)
- **The echo server (`ch_6/server.cpp`).** A poll-driven, non-blocking
  server. It reads length-prefixed frames of at most 4096 bytes into a
  per-connection buffer and writes each whole frame back unchanged.
  (`connection.dfy`, `socket.dfy`, `echo_server.dfy`, `registry.dfy`.)
- **The key-value server (`ch_7/server.cpp`).** The same connection
  machinery. Each frame's payload is parsed as an argument vector
  (`protocol.dfy`). `get`, `set` or `del` is executed on a key space
  (`commands.dfy`). The reply frame carries a status code and a body
  (`kv_server.dfy`).

Modelling choices:
- A bucket chain is the sequence of the nodes it links.
- "The address of the link that points to a node" is the node's bucket and
  its index in that chain.
- The C structures that the code updates in place are classes with fields
  (`HMap`, `Conn`, `Store`, `ConnTable`). One generation of the table
  (`HTab`) is a value over a shared bucket array, as it is in the C
  struct.
- The socket is a `Peer` object. It holds:
  - the bytes the client has sent and the server has not yet read;
  - the scripted outcomes of the coming `read` and `write` calls (a byte
    count, EINTR, EAGAIN or another error);
  - ghost histories of every byte received and sent.
- An exhausted outcome script behaves as EAGAIN. A read allowed `n > 0`
  bytes when the client has sent nothing more returns 0: the end of the
  stream.

The main results:
- **Hash map.** Every map operation keeps the two-generation invariant:
  - every node lies in the slot its hash code selects;
  - each generation's `size` equals the number of nodes in it;
  - the migration cursor has emptied every bucket before it.

  Each operation also states the exact multiset of nodes it leaves
  behind. Lookup and pop return a matching node exactly when one exists.
- **Wire format.** `parse_req` accepts exactly the encodings of argument
  vectors, in both directions. This is `DecodeEncode` together with
  `EncodeDecode`.
- **Commands.** Their behaviour is proved as a key-value store:
  - a `set` is visible to the next `get`;
  - after a `del` the key is absent;
  - only the named key changes;
  - an unknown command answers `RES_ERR`.
- **Connections.** Every server step keeps the buffer invariants, and the
  bytes sent to a client are always a prefix of the reply stream. For the
  echo server, that stream is the prefix of what the client sent.

## Model

| member | source | states |
|---|---|---|
| HashTable.BitAnd | ch_9/hashtable.cpp:21 | `a & b` is no larger than either operand |
| HashTable.MaskIsModulo | ch_9/hashtable.cpp:21 | for a capacity `2^k`, `h_code & mask` is `h_code mod 2^k`, so the slot index is the hash modulo the capacity |
| HashTable.PowerOfTwoSizeIsPow2 | ch_9/hashtable.cpp:8-11 | the sizes the assertion of `h_init` accepts, `n > 0 && ((n - 1) & n) == 0`, are exactly the powers of two |
| HashTable.SlotIsModulo | ch_9/hashtable.cpp:21 | for every capacity `h_init` accepts, the slot `h_code & mask` is the hash code modulo the capacity |
| HashTable.TabSlotsAreModulo | ch_9/hashtable.cpp:21-25 | in a valid table every node sits in the chain of its hash code modulo the capacity |
| HashTable.DoubleIsPowerOfTwo | ch_9/hashtable.cpp:99 | doubling a power-of-two capacity gives a power of two, so `hm_start_resizing` meets the assertion of `h_init` |
| HashTable.InitialCapIsPowerOfTwo | ch_9/hashtable.cpp:118 | the first capacity, 4, passes the assertion of `h_init` |
| HashTable.Slot | ch_9/hashtable.cpp:21 | the slot index never exceeds the mask, so it addresses a bucket |
| HashTable.Matches | ch_9/hashtable.cpp:46 | a node matches only when the caller's `eq` holds, and then it has the key's slot under every mask |
| HashTable.LoadFactor | ch_9/hashtable.cpp:126-128 | the load factor is the nodes per slot rounded down, and it reaches `k_max_load_factor` exactly when the table holds 8 nodes per slot |
| HashTable.NoMatchUnion | ch_9/hashtable.cpp:103-112 | no node matches in a union exactly when none matches in either part |
| HashTable.ElemsUpdate | ch_9/hashtable.cpp:24-25 | replacing one chain replaces exactly its nodes in the table's multiset |
| HashTable.HashedUpdate | ch_9/hashtable.cpp:24-25 | a chain whose nodes all hash to its slot keeps every node in its own slot |
| HashTable.Unlink | ch_9/hashtable.cpp:58-59 | `*from = node->next` removes exactly the node at the link: the earlier nodes stay, the later ones move up by one |
| HashTable.UnlinkKeepsOthers | ch_9/hashtable.cpp:56-63 | unlinking removes exactly one copy of the node, and the chain stays in its slot |
| HashTable.CursorInBounds | ch_9/hashtable.cpp:69-78 | while the older table holds nodes, the cursor, behind which every bucket is empty, stays inside the bucket array |
| HashTable.ElemsHas | ch_9/hashtable.h:14-19 | a node is in the table exactly when some bucket's chain holds it |
| HashTable.ElemsOfEmptyChains | ch_9/hashtable.cpp:9-16 | a table of empty chains holds no node |
| HashTable.ElemsAfterEmptyPrefix | ch_9/hashtable.cpp:69-78 | the buckets before the cursor contribute no node |
| HashTable.MatchesLieInSlot | ch_9/hashtable.cpp:41-52 | some node of the table matches the key exactly when one in the key's slot does, so `h_lookup` only needs to scan that chain |
| HashTable.InsertKeepsWellFormed | ch_9/hashtable.cpp:19-27 | prepending a node to its slot's chain keeps every node in its slot, adds the node and counts it in `size` |
| HashTable.DetachKeepsWellFormed | ch_9/hashtable.cpp:56-63 | unlinking a node keeps the table well formed with `size` one less and removes exactly that node |
| HashTable.MovedOne | ch_9/hashtable.cpp:80-81 | moving one more node keeps the two tables' multisets balanced against the moved set |
| HashTable.EmptyTab | ch_9/hashtable.h:14-19 | `HTab{}`, the absent table, has no array, is valid and holds no node |
| HashTable.TabInit | ch_9/hashtable.cpp:9-16 | for a power-of-two `n`, a fresh array of `n` empty chains with mask `n - 1` and size 0 |
| HashTable.TabInsert | ch_9/hashtable.cpp:19-27 | the node heads its slot's chain, the other chains stay, `size` grows by one and the node set gains the node |
| HashTable.TabLookup | ch_9/hashtable.cpp:34-53 | nothing for an absent table; otherwise the first matching node of the key's chain, which is the table's `FirstIn`; nothing exactly when no node of the table matches |
| HashTable.TabDetach | ch_9/hashtable.cpp:56-63 | the node at the link is returned and unlinked, `size` falls by one and the other chains stay |
| HashTable.TabPop | ch_9/hashtable.cpp:141-149 | the node returned is the first match of the key's chain, and only it is unlinked from that chain; with no match every chain is untouched |
| HashTable.FirstMatch | ch_9/hashtable.cpp:44-49 | the position `h_lookup` stops at: a matching node with no match before it, or the chain's end |
| HashTable.FirstMatchAt | ch_9/hashtable.cpp:44-49 | a matching position with no match before it is the first match |
| HashTable.FirstIn | ch_9/hashtable.cpp:41-52 | the node `h_lookup` finds in a table: a matching node of the key's chain, and nothing only when no node of that chain matches |
| HashTable.NewerUpdated | ch_9/hashtable.h:23-28 | changing the newer table's chains in place keeps the map invariant |
| HashTable.OlderUpdated | ch_9/hashtable.h:23-28 | changing the older table's chains keeps the map invariant as long as emptied buckets stay empty |
| HashTable.CursorAdvanced | ch_9/hashtable.cpp:74-78 | stepping the cursor past an empty bucket keeps the map invariant |
| HashTable.HMap.constructor | ch_9/hashtable.h:23-28 | `HMap{}`: both tables absent, no nodes |
| HashTable.HMap.Size | ch_9/hashtable.cpp:154-157 | `hm_size` is the sum of the two sizes, and that is the number of nodes in the map |
| HashTable.HMap.DetachHead | ch_9/hashtable.cpp:72-80 | the head of the bucket at the cursor leaves the older table, which loses exactly that node |
| HashTable.HMap.MoveStep | ch_9/hashtable.cpp:69-82 | one pass of the migration loop: an empty bucket advances the cursor; otherwise exactly one node moves from the older table to the newer |
| HashTable.HMap.MoveNodes | ch_9/hashtable.cpp:65-82 | at most 128 nodes move, all of them if the older table held 128 or fewer; what leaves the older table is what the newer one gains |
| HashTable.HMap.HelpResizing | ch_9/hashtable.cpp:65-90 | the set of nodes in the map is unchanged; once the older table is drained it becomes `HTab{}` |
| HashTable.HMap.StartResizing | ch_9/hashtable.cpp:92-101 | the newer table becomes the older one, a fresh empty table of twice the capacity becomes the newer, the cursor restarts at 0, and no node is lost |
| HashTable.HMap.InsertNewer | ch_9/hashtable.cpp:116-121 | the first insertion allocates 4 slots; the node joins the newer table |
| HashTable.HMap.CheckLoad | ch_9/hashtable.cpp:124-132 | resizing starts exactly when no resize is in progress and the load factor has reached 8 |
| HashTable.HMap.Insert | ch_9/hashtable.cpp:114-135 | the map gains exactly the node; its capacity starts at 4 and doubles when the load factor reaches 8 |
| HashTable.HMap.Find | ch_9/hashtable.cpp:108-111 | returns a matching node exactly when one exists: the first match of the key's chain in the newer table when it holds one, otherwise the first match in the older table's chain |
| HashTable.HMap.Lookup | ch_9/hashtable.cpp:103-112 | `hm_lookup` leaves the node set unchanged and, on the tables as the migration batch left them, returns the first match of the key's chain in the newer table, else the first in the older one; nothing exactly when no node matches |
| HashTable.HMap.PopNewer | ch_9/hashtable.cpp:141-144 | unlinks the first match of the key's chain in the newer table, if any, and leaves the older table's chains alone |
| HashTable.HMap.PopOlder | ch_9/hashtable.cpp:146-149 | unlinks the first match of the key's chain in the older table, if any, and leaves the newer table's chains alone |
| HashTable.HMap.Detach | ch_9/hashtable.cpp:141-151 | removes one matching node exactly when one exists; when the newer table holds a match it is that table's first match and the older table is untouched, and only otherwise is the older table's first match removed |
| HashTable.HMap.Pop | ch_9/hashtable.cpp:137-152 | `hm_pop` returns a matching node exactly when one exists and removes just that node, so the size falls by one; after the migration batch, a match in the newer table is taken from it and the older table only loses what migrated |
| HashTable.HMap.Destroy | ch_9/hashtable.cpp:159-165 | the map is `HMap{}` again, with no nodes |
| Wire.LoadU32 | ch_7/server.cpp:76 | four bytes read as a `uint32_t` are below 2^32 |
| Wire.StoreU32 | ch_7/server.cpp:309-310 | writing a `uint32_t` gives four bytes that read back as the same number |
| Wire.StoreLoadU32 | ch_7/server.cpp:278 | every four bytes are the encoding of the number they read as |
| Protocol.Encode | ch_7/server.cpp:74-81 | an encoded request starts with its argument count |
| Protocol.ParseArgs | ch_7/server.cpp:83-102 | a successful parse yields exactly `count` arguments and consumes bytes |
| Protocol.Decode | ch_7/server.cpp:66-110 | fewer than 4 bytes and more than 1024 arguments are rejected; an accepted payload has as many arguments as its count says |
| Protocol.ParseEncoded | ch_7/server.cpp:83-102 | the argument loop reads back every encoded vector and leaves exactly the bytes after it |
| Protocol.DecodeEncode | ch_7/server.cpp:66-110 | `parse_req` accepts the encoding of every vector of at most 1024 arguments and returns that vector |
| Protocol.ParsedIsEncoded | ch_7/server.cpp:83-102 | what the loop consumed is exactly the encoding of the arguments it returned |
| Protocol.EncodeArgsCons | ch_7/server.cpp:92-100 | the encoding of a vector is its first argument's length prefix and bytes, followed by the encoding of the rest |
| Protocol.EncodeDecode | ch_7/server.cpp:66-110 | every payload `parse_req` accepts is the encoding of its result, so nothing is skipped and nothing trails |
| Protocol.EncodedLength | ch_7/server.cpp:83-102 | an encoding holds four bytes per argument plus every argument's bytes |
| Protocol.DecodedArgFits | ch_7/server.cpp:66-110 | every argument of an accepted payload is shorter than the payload by at least the length prefixes |
| Protocol.ParseReq | ch_7/server.cpp:66-110 | returns 0 exactly when the payload is a well-formed request, with the argument vector; otherwise -1 |
| Protocol.ParseFrom | ch_7/server.cpp:85-101 | one pass of the loop: a missing length prefix or a truncated argument fails; otherwise the argument is taken and the loop continues after it |
| Protocol.ReadArg | ch_7/server.cpp:85-101 | one pass of the loop: fails exactly when the rest cannot be parsed; otherwise advances past the argument and appends it |
| Protocol.ParseStep | ch_7/server.cpp:83-102 | appending the argument just read keeps the loop's result the same as parsing the whole rest |
| Protocol.PrependStep | ch_7/server.cpp:98 | appending arguments one by one builds the same vector as appending them together |
| Commands.Ascii | ch_7/server.cpp:150-153 | the command words as bytes, character for character |
| Commands.CStr | ch_7/server.cpp:150-153 | `c_str()` as `strcasecmp` reads it: the longest prefix without NUL, stopping at the first NUL |
| Commands.Execute | ch_7/server.cpp:155-192 | the status code is `RES_OK`, `RES_ERR` or `RES_NX`; while stored values fit, the reply body fits a reply frame |
| Commands.Lower | ch_7/server.cpp:150-153 | `tolower` never yields an upper-case letter and changes only upper-case letters, each to its lower-case partner |
| Commands.CmdIs | ch_7/server.cpp:150-153 | `cmd_is` holds exactly when the two C strings are equal once both are folded to lower case |
| Commands.SameIgnoringCaseFolded | ch_7/server.cpp:150-153 | comparing byte by byte under `tolower` is comparing the folded strings |
| Commands.CmdIsIgnoresCase | ch_7/server.cpp:150-153 | words equal up to ASCII case name the same command |
| Commands.NoNul | ch_7/server.cpp:150-153 | a word without NUL compares in full |
| Commands.CmdIsStopsAtNul | ch_7/server.cpp:150-153 | a word with bytes after a NUL still names the command before the NUL |
| Commands.PrefixBeforeNul | ch_7/server.cpp:150-153 | `c_str()` of a word with a NUL ends at that NUL |
| Commands.UpperCaseGet | ch_7/server.cpp:166 | `GET` and `Get` both dispatch to `do_get` |
| Commands.CommandsDiffer | ch_7/server.cpp:166-177 | no word names two commands, so at most one branch of the dispatch applies |
| Commands.SetThenGet | ch_7/server.cpp:112-137 | after `set key value`, `get key` answers `RES_OK` with that value |
| Commands.DelThenGet | ch_7/server.cpp:112-148 | `del key` answers `RES_OK`, and afterwards `get key` answers `RES_NX` with an empty body |
| Commands.OnlyNamedKeyChanges | ch_7/server.cpp:128-148 | a command changes no key other than the one it names |
| Commands.GetAnswers | ch_7/server.cpp:112-126 | `get` changes nothing and answers with the value, or `RES_NX` with an empty body for an absent key |
| Commands.UnknownAnswersErr | ch_7/server.cpp:166-189 | the reply is `RES_ERR` exactly when the vector is not `get k`, `set k v` or `del k`; its body is the 11 bytes "Unknown cmd" and the key space is unchanged |
| Commands.ExecuteKeepsValuesFit | ch_7/server.cpp:121 | a request of at most 4096 bytes stores only values that fit a reply, so the assertion in `do_get` holds |
| Commands.Store.constructor | ch_7/server.cpp:23 | `g_map` starts empty |
| Commands.Store.DoGet | ch_7/server.cpp:112-126 | the key's value with `RES_OK`, or `RES_NX` with nothing written; the value never exceeds 4096 bytes |
| Commands.Store.DoSet | ch_7/server.cpp:128-137 | the key now maps to the value, replacing any earlier one; `RES_OK` |
| Commands.Store.DoDel | ch_7/server.cpp:139-148 | the key is absent afterwards, whether or not it was there; `RES_OK` |
| Commands.Store.DoRequest | ch_7/server.cpp:155-192 | -1 exactly when `parse_req` rejects the payload, with the key space unchanged; otherwise 0, with the reply and key space of `Execute` |
| Socket.Clamp | ch_7/server.cpp:339-343 | a call moves no more bytes than it was asked for, and keeps its kind of outcome |
| Socket.Retry | ch_7/server.cpp:337-343 | the EINTR retry loop never ends on an interruption |
| Socket.RetryUses | ch_7/server.cpp:337-343 | the retry loop uses up the interruptions and the outcome after them, and that outcome is its result; when the outcomes run out it would block |
| Socket.RetryStep | ch_7/server.cpp:337-343 | each pass of the retry loop either decides the outcome or shifts the rest of the loop by one call |
| Socket.LastRetryUses | ch_7/server.cpp:385-390 | a run of read or write loops that stopped without using an outcome had none to use, so a server loop cannot stop idle while the socket has something to report |
| Socket.LastRetryShift | ch_7/server.cpp:385-390 | a retry loop's position in a suffix of the outcomes is the same loop's position in the whole, with the same outcome |
| Socket.NextRetry | ch_7/server.cpp:378-380 | across a run of steps, the outcomes used so far stay a suffix of the script, and the last retry loop's position is kept |
| Socket.FlushRetryAsWritten | ch_7/server.cpp:396-400 | the flush loop as written ends only on an outcome that actually occurred |
| Socket.AsWrittenNeverWouldBlock | ch_7/server.cpp:396-406 | as written, the loop never ends on EAGAIN, so the would-block branch after it is dead |
| Socket.AsWrittenFailsOnInterrupt | ch_7/server.cpp:396-414 | as written, an interrupted write ends the loop and is taken for an error; the intended loop retries it |
| Socket.AsWrittenSpins | ch_6/server.cpp:244-248 | as written, a full socket keeps the loop spinning; the intended loop stops and waits for `poll` |
| Socket.Peer.constructor | ch_7/server.cpp:227-262 | a fresh socket with nothing yet read or written |
| Socket.Peer.Read | ch_7/server.cpp:338-342 | `read` copies at most the requested count of the client's pending bytes to the buffer, adds them to what was received, and records what it returned |
| Socket.Peer.Write | ch_7/server.cpp:396-399 | `write` sends at most the requested bytes from the buffer, and appends them to what was sent |
| Connection.CheckFrame | ch_7/server.cpp:270-292 | a whole frame declares at most 4096 bytes, lies within the buffer and starts with its own length prefix; a short frame in a buffer of at most 4100 bytes leaves room to read |
| Connection.SliceOfPrefix | ch_7/server.cpp:295-296 | a slice of the valid prefix of the buffer is the same slice of the buffer |
| Connection.MoveToFront | ch_7/server.cpp:315-322 | `memmove` puts the bytes after the request at the front of the buffer, in order |
| Connection.Conn.constructor | ch_7/server.cpp:253-257 | `accept_new_conn`: a live connection in `STATE_REQ` with empty buffers |
| Connection.Conn.PutReply | ch_7/server.cpp:307-312 | the reply is the write buffer's content and the connection enters `STATE_RES` |
| Connection.Conn.Consume | ch_7/server.cpp:315-322 | the request's bytes leave the read buffer and the rest moves to its front, in order |
| Connection.Conn.Respond | ch_7/server.cpp:307-329 | the reply joins the reply stream and the request leaves the buffer; then `state_res` flushes, and the outcome of its last write decides the state: `STATE_REQ` when the reply went out in full, `STATE_RES` when the write would block, `STATE_END` when it failed |
| Connection.Conn.WriteRetry | ch_7/server.cpp:394-400 | the intended EINTR retry around `write`, sending at most the unsent bytes |
| Connection.Conn.TryFlushBuffer | ch_7/server.cpp:392-433 | EAGAIN waits in `STATE_RES`; an error ends the connection; written bytes advance `w_buf_sent`; a completed reply returns to `STATE_REQ` with the counters reset |
| Connection.Conn.StateRes | ch_7/server.cpp:435-440 | flushes until it stops, and the outcome of the last write decides where: back in `STATE_REQ` (every reply byte sent) after the last of the reply is written, `STATE_RES` when the write would block, `STATE_END` when it failed |
| Connection.Conn.ReadRetry | ch_7/server.cpp:337-343 | the EINTR retry around `read` into the free end of the buffer |
| Connection.Conn.Receive | ch_7/server.cpp:335-375 | EAGAIN changes nothing, an error or the end of stream ends the connection, and read bytes are appended to the buffered ones |
| EchoServer.TryOneRequest | ch_6/server.cpp:126-178 | a short frame changes nothing; an oversized one ends the connection; a whole frame is echoed, removed from the buffer and flushed, the last write's outcome deciding the state; so the connection ends only on an oversized frame or a failed write |
| EchoServer.Answer | ch_6/server.cpp:156-177 | the reply is the frame itself, the frame leaves the buffer, and the flush's last write decides the state |
| EchoServer.TryFillBuffer | ch_6/server.cpp:180-231 | a read that would block changes nothing and returns false; otherwise it returns true exactly when the connection is back in `STATE_REQ`, with less than a whole frame buffered; it waits in `STATE_RES` only when the last write would block, and ends only when the read failed or met the end of the stream, a frame was oversized, or the last write failed |
| EchoServer.StateReq | ch_6/server.cpp:233-238 | `state_req` keeps the connection invariants and the echo property; it stops in `STATE_REQ` only when its last read would block, in `STATE_RES` only when its last write would block, and in `STATE_END` only after a failed read, the end of the stream, an oversized frame or a failed write |
| EchoServer.ConnectionIo | ch_6/server.cpp:290-304 | the bytes sent to the client are a prefix of the bytes it sent; from `STATE_REQ` it stops as `state_req` does, and from `STATE_RES` the last write's outcome decides the state |
| EchoServer.EchoIsPrefix | ch_6/server.cpp:156-160 | an echo of consumed bytes is a prefix of everything received |
| KvServer.ReplyFrame | ch_7/server.cpp:307-312 | a reply frame is 8 to 4100 bytes long, so it fits the write buffer |
| KvServer.ReplyFrameReads | ch_7/server.cpp:307-312 | a client reading a reply frame finds the frame's length, the status code and the body |
| KvServer.TryOneRequest | ch_7/server.cpp:267-330 | a short frame changes nothing; an oversized or malformed one ends the connection; a request is executed, its reply frame queued and flushed, the last write's outcome deciding the state, so the frames consumed are served by the replies queued, and the connection ends only on a refused request or a failed write |
| KvServer.Answer | ch_7/server.cpp:295-329 | a rejected payload ends the connection and changes nothing else; otherwise the key space changes as `Execute` says, the reply frame is queued, which serves the consumed frame, and the flush's last write decides the state |
| KvServer.TryFillBuffer | ch_7/server.cpp:332-383 | a read that would block changes nothing and returns false; otherwise it returns true exactly when the connection is back in `STATE_REQ`, with less than a whole frame buffered; it waits in `STATE_RES` only when the last write would block, and ends only when the read failed or met the end of the stream, a request was refused, or the last write failed; the frames consumed, executed in order from the old key space, give exactly the replies queued and the new key space |
| KvServer.StateReq | ch_7/server.cpp:385-390 | `state_req` keeps the invariants and serves every frame it consumes in order; it stops in `STATE_REQ` only when its last read would block, in `STATE_RES` only when its last write would block, and in `STATE_END` only after a failed read, the end of the stream, a refused request or a failed write |
| KvServer.ConnectionIo | ch_7/server.cpp:442-456 | the bytes sent to a client are always a prefix of the reply frames queued for it, and the frames consumed are served in order; from `STATE_REQ` it stops as `state_req` does, and from `STATE_RES` the last write's outcome decides the state |
| KvServer.Serve | ch_7/server.cpp:332-383 | the reference for a run of requests: whole frames executed in order, each adding its reply frame and passing on its key space |
| KvServer.ServeAppend | ch_7/server.cpp:332-383 | serving two runs of frames one after the other is serving their concatenation |
| KvServer.ServeAppendFrame | ch_7/server.cpp:332-383 | the step of the concatenation property for a stream that starts with a whole frame |
| KvServer.CheckFrameExtends | ch_7/server.cpp:277-292 | bytes that arrive after a whole frame do not change how that frame is read |
| KvServer.NothingServed | ch_7/server.cpp:270-292 | consuming nothing and queueing nothing serves nothing and keeps the key space |
| KvServer.ServedTrans | ch_7/server.cpp:377-390 | what was served before and after a midpoint was served in all, so loops of `try_one_request` serve every frame they consume |
| KvServer.FrameServed | ch_7/server.cpp:295-329 | consuming one whole well-formed frame and queueing its reply frame serves that frame |
| KvServer.ServeWholeFrame | ch_7/server.cpp:277-292 | a stream that is exactly one frame is served by that frame's request alone |
| KvServer.StepRequest | ch_7/server.cpp:295-312 | the encoding of a request is answered by its reply frame and the key space `Execute` leaves |
| KvServer.ServeRequest | ch_7/server.cpp:267-330 | a client that sends one framed request is owed the reply frame of executing it, and the key space it leaves |
| Registry.ConnTable.constructor | ch_7/server.cpp:505 | no connection yet |
| Registry.ConnTable.Put | ch_7/server.cpp:217-225 | the table grows with empty slots until it holds the descriptor; the connection is filed there and every other slot is unchanged |
| Registry.ConnTable.Drop | ch_7/server.cpp:553-563 | after `connection_io`, a connection in `STATE_END` leaves its slot, which becomes null; any other connection stays filed, and no other slot changes |

## Left out

- `main`, the `poll` loop, `accept_new_conn`'s socket calls, `fd_set_nb`, `close`: these are I/O. `connection_io`'s branch on the connection state is modelled; the event loop that calls it is not.
- The `read` and `write` system calls: their outcomes are scripted by `Socket.Peer`. Its ghost histories stand for what the client sends and sees.
- Socket.Peer.Read: a read whose outcome allows bytes, when none of the client's bytes are pending, returns 0. The model reads that 0 as the end of the stream, as `try_fill_buffer` does with `rv == 0`; which of the two a real socket reports is the script's choice.
- `malloc`, `calloc` and `free` and their failure: allocation always succeeds. Freeing the older bucket array is modelled as the table becoming `HTab{}`.
- `msg`, `die`, the logging to `stderr` and the echo server's `printf` of each request: output only.
- The programs of chapters 1, 3 and 4: these are not part of this model.
- Wire.LoadU32 and Wire.StoreU32: the source copies 32-bit integers with `memcpy`, so they travel in the host's byte order. The model fixes little-endian, which is the order on the usual hosts; nothing proved depends on the choice.
- The hash function and the `eq` callback: `HNode.hCode` is any 64-bit value, and `eq` is any function of two nodes.
- HashTable.HMap.Insert: `(mask + 1) * 2` is not checked for `size_t` overflow. The model's capacities are unbounded, because a table that large cannot be allocated.
- Socket.FlushRetryAsWritten: the spin on EAGAIN is not modelled as a loop. `None` stands for it; see Findings.
- Connection.Conn.PutReply: it sets `STATE_RES` after copying the reply, where the source sets the state after the `memmove`. Nothing reads the state in between.
- Connection.Conn.constructor: requires a socket nothing has been read from or written to yet, as with a fresh `accept`.
- EchoServer.Answer and KvServer.Answer: the reply is built as a byte string and then copied into the write buffer. The source writes the header and the body into the buffer in place; the bytes are the same.
- Connection.Conn.WriteRetry and Connection.Conn.TryFlushBuffer: they use the intended EINTR retry (`Socket.Retry`) rather than the EAGAIN loop as written.
- Commands.Store.DoSet: requires the value to be at most 4080 bytes. Every value taken from a request of at most 4096 bytes is (`Protocol.DecodedArgFits`); the source does not check it.
- Pipelining after a `poll`-driven flush: when `state_res` finishes a reply that `try_one_request` left unsent, the source does not look at frames already buffered until the next read. The model keeps this behaviour and states nothing about those frames' replies.
- KvServer.Serve: a request whose reply body would exceed 4080 bytes leaves the run unserved (`None`). A key space whose values all fit, which every `Commands.Store` keeps, never produces one.
- HashTable.HMap.Pop: the chain position that is unlinked is stated by `HashTable.HMap.Detach`, against the chains left by the migration batch. `Pop` states the newer-before-older choice on node multisets only, because those intermediate chains are not visible in its contract.
- The `std::map` of `g_map` is a Dafny `map`. The hash map of chapter 9 is modelled on its own; chapter 7 does not use it.

## Findings

| source | as written | input that shows it | evidently intended | confidence | as-written member | corrected member |
|---|---|---|---|---|---|---|
| ch_7/server.cpp:396-406 and ch_6/server.cpp:244-254 | `do { rv = write(...); } while (rv < 0 && errno == EAGAIN);` repeats a write that would block and stops on EINTR. The `if (rv < 0 && errno == EAGAIN)` after it can never hold, and an interrupted write ends the connection | write outcomes `[EINTR, 8 bytes]` fail the connection, where the retry writes 8 bytes; `[EAGAIN, EAGAIN, ...]` spins instead of returning to `poll` | retry on EINTR as `try_fill_buffer` does, and return on EAGAIN to wait in `STATE_RES` | not executed | Socket.FlushRetryAsWritten (with Socket.AsWrittenFailsOnInterrupt, Socket.AsWrittenNeverWouldBlock, Socket.AsWrittenSpins) | Socket.Retry (with Socket.RetryUses, used by Connection.Conn.WriteRetry and Connection.Conn.TryFlushBuffer) |
