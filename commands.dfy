/**
 * The commands of the key-value server: `get`, `set` and `del` over the key
 * space, a map from byte strings to byte strings, and the dispatch of a
 * request payload to them.
 */
module Commands {
  import opened Wire
  import opened Protocol

  /** The status codes of a reply. */
  const ResOk: nat := 0
  const ResErr: nat := 1
  const ResNx: nat := 2

  /** The bytes of an ASCII string. */
  function Ascii(s: string): (b: Bytes)
    requires forall i :: 0 <= i < |s| ==> s[i] as int < 256
    ensures |b| == |s| && forall i :: 0 <= i < |s| ==> b[i] == s[i] as int
  {
    seq(|s|, i requires 0 <= i < |s| => s[i] as int)
  }

  const GetCmd: Bytes := Ascii("get")
  const SetCmd: Bytes := Ascii("set")
  const DelCmd: Bytes := Ascii("del")

  /** The body of the reply to a request that names no known command. */
  const UnknownCmd: Bytes := Ascii("Unknown cmd")

  /** The largest value a `set` can store: a payload of `MaxMsg` bytes less the count and three length prefixes. */
  const MaxValue: nat := MaxMsg - 16

  /** `s.c_str()` as C string functions read it: the bytes before the first NUL. */
  function CStr(s: Bytes): (r: Bytes)
    ensures |r| <= |s| && r == s[..|r|]
    ensures forall i :: 0 <= i < |r| ==> r[i] != 0
    ensures |r| < |s| ==> s[|r|] == 0
  {
    if s == [] || s[0] == 0 then [] else [s[0]] + CStr(s[1..])
  }

  /**
   * `tolower` in the C locale: never an upper-case letter, and it changes
   * only upper-case letters, each to the lower-case letter at the same
   * place in the alphabet.
   */
  function Lower(c: byte): (r: byte)
    ensures !('A' as int <= r <= 'Z' as int)
    ensures r != c <==> 'A' as int <= c <= 'Z' as int
    ensures r != c ==> r - 'a' as int == c - 'A' as int
  {
    if 'A' as int <= c <= 'Z' as int then c + 32 else c
  }

  /** The bytes of `s`, each put in lower case. */
  function Folded(s: Bytes): (r: Bytes)
    ensures |r| == |s|
  {
    seq(|s|, i requires 0 <= i < |s| => Lower(s[i]))
  }

  /** Equal once both are put in lower case. */
  predicate SameIgnoringCase(a: Bytes, b: Bytes) {
    |a| == |b| && forall i :: 0 <= i < |a| ==> Lower(a[i]) == Lower(b[i])
  }

  lemma SameIgnoringCaseFolded(a: Bytes, b: Bytes)
    ensures SameIgnoringCase(a, b) <==> Folded(a) == Folded(b)
  {
    if Folded(a) == Folded(b) {
      assert |a| == |Folded(a)| == |Folded(b)| == |b|;
      assert forall i :: 0 <= i < |a| ==> Lower(a[i]) == Folded(a)[i] == Folded(b)[i] == Lower(b[i]);
    }
    if SameIgnoringCase(a, b) {
      assert forall i :: 0 <= i < |a| ==> Folded(a)[i] == Lower(a[i]) == Lower(b[i]) == Folded(b)[i];
      assert Folded(a) == Folded(b);
    }
  }

  /**
   * `cmd_is`: `strcasecmp(word.c_str(), cmd) == 0`, which holds exactly when
   * the two C strings are the same once both are folded to lower case.
   */
  function CmdIs(word: Bytes, cmd: Bytes): (b: bool)
    ensures b <==> Folded(CStr(word)) == Folded(CStr(cmd))
  {
    SameIgnoringCaseFolded(CStr(word), CStr(cmd));
    SameIgnoringCase(CStr(word), CStr(cmd))
  }

  /** A reply: its status code and its body. */
  datatype Reply = Reply(code: nat, body: Bytes)

  /** The key space. */
  type KeySpace = map<Bytes, Bytes>

  /**
   * What `do_request` does with a parsed argument vector: the reply, and
   * the key space after the command.
   */
  function Execute(entries: KeySpace, cmd: seq<Bytes>): (r: (Reply, KeySpace))
    ensures r.0.code <= ResNx
    ensures ValuesFit(entries) ==> |r.0.body| <= MaxValue
  {
    if |cmd| == 2 && CmdIs(cmd[0], GetCmd) then
      if cmd[1] in entries then (Reply(ResOk, entries[cmd[1]]), entries) else (Reply(ResNx, []), entries)
    else if |cmd| == 3 && CmdIs(cmd[0], SetCmd) then
      (Reply(ResOk, []), entries[cmd[1] := cmd[2]])
    else if |cmd| == 2 && CmdIs(cmd[0], DelCmd) then
      (Reply(ResOk, []), entries - {cmd[1]})
    else
      (Reply(ResErr, UnknownCmd), entries)
  }

  /** `cmd_is` ignores case: any spelling of a command in upper or lower case names it. */
  lemma CmdIsIgnoresCase(word: Bytes, cmd: Bytes)
    requires forall i :: 0 <= i < |word| ==> word[i] != 0
    requires forall i :: 0 <= i < |cmd| ==> cmd[i] != 0
    requires SameIgnoringCase(word, cmd)
    ensures CmdIs(word, cmd)
  {
    NoNul(word);
    NoNul(cmd);
  }

  /** A string without NUL is its own `c_str()`. */
  lemma {:induction false} NoNul(s: Bytes)
    requires forall i :: 0 <= i < |s| ==> s[i] != 0
    ensures CStr(s) == s
  {
    if s != [] {
      NoNul(s[1..]);
    }
  }

  /** `cmd_is` stops at the first NUL: a word with anything after a NUL still names the command before it. */
  lemma {:induction false} CmdIsStopsAtNul(cmd: Bytes, junk: Bytes)
    requires forall i :: 0 <= i < |cmd| ==> cmd[i] != 0
    ensures CmdIs(cmd + [0] + junk, cmd)
  {
    NoNul(cmd);
    PrefixBeforeNul(cmd, junk);
  }

  lemma {:induction false} PrefixBeforeNul(cmd: Bytes, junk: Bytes)
    requires forall i :: 0 <= i < |cmd| ==> cmd[i] != 0
    ensures CStr(cmd + [0] + junk) == cmd
  {
    if cmd != [] {
      assert (cmd + [0] + junk)[1..] == cmd[1..] + [0] + junk;
      PrefixBeforeNul(cmd[1..], junk);
    }
  }

  /** `GET`, `Get` and `get` all name `get`. */
  lemma UpperCaseGet()
    ensures CmdIs(Ascii("GET"), GetCmd) && CmdIs(Ascii("Get"), GetCmd)
  {
    CmdIsIgnoresCase(Ascii("GET"), GetCmd);
    CmdIsIgnoresCase(Ascii("Get"), GetCmd);
  }

  /** The three command words are distinct, so at most one branch of the dispatch applies. */
  lemma CommandsDiffer(word: Bytes)
    ensures !(CmdIs(word, GetCmd) && CmdIs(word, SetCmd))
    ensures !(CmdIs(word, GetCmd) && CmdIs(word, DelCmd))
    ensures !(CmdIs(word, SetCmd) && CmdIs(word, DelCmd))
  {
    NoNul(GetCmd);
    NoNul(SetCmd);
    NoNul(DelCmd);
    var w := CStr(word);
    if CmdIs(word, GetCmd) {
      assert Lower(w[0]) == 'g' as int;
    }
    if CmdIs(word, SetCmd) {
      assert Lower(w[0]) == 's' as int;
    }
    if CmdIs(word, DelCmd) {
      assert Lower(w[0]) == 'd' as int;
    }
  }

  /** A `set` is seen by the next `get` of the same key, whatever was there before. */
  lemma SetThenGet(entries: KeySpace, setWord: Bytes, getWord: Bytes, key: Bytes, value: Bytes)
    requires CmdIs(setWord, SetCmd) && CmdIs(getWord, GetCmd)
    ensures var (_, after) := Execute(entries, [setWord, key, value]);
            Execute(after, [getWord, key]) == (Reply(ResOk, value), after)
  {
    CommandsDiffer(setWord);
    CommandsDiffer(getWord);
  }

  /** After a `del` the key is absent: `get` answers `RES_NX`. */
  lemma DelThenGet(entries: KeySpace, delWord: Bytes, getWord: Bytes, key: Bytes)
    requires CmdIs(delWord, DelCmd) && CmdIs(getWord, GetCmd)
    ensures var (reply, after) := Execute(entries, [delWord, key]);
            && reply == Reply(ResOk, [])
            && Execute(after, [getWord, key]) == (Reply(ResNx, []), after)
  {
    CommandsDiffer(delWord);
    CommandsDiffer(getWord);
  }

  /**
   * Every command changes at most the key it names, and only `set` and
   * `del` change anything: `set` stores its value, `del` removes the key,
   * whether it was there or not, and both answer `RES_OK`.
   */
  lemma OnlyNamedKeyChanges(entries: KeySpace, cmd: seq<Bytes>, other: Bytes)
    requires |cmd| >= 2 && other != cmd[1]
    ensures var (_, after) := Execute(entries, cmd);
            && (other in after <==> other in entries)
            && (other in after ==> after[other] == entries[other])
  {
  }

  /** `get` changes nothing and answers with the value, or `RES_NX` with an empty body for an absent key. */
  lemma GetAnswers(entries: KeySpace, getWord: Bytes, key: Bytes)
    requires CmdIs(getWord, GetCmd)
    ensures var (reply, after) := Execute(entries, [getWord, key]);
            && after == entries
            && (key in entries ==> reply == Reply(ResOk, entries[key]))
            && (key !in entries ==> reply == Reply(ResNx, []))
  {
    CommandsDiffer(getWord);
  }

  /**
   * `RES_ERR` with the 11-byte body "Unknown cmd" is the answer exactly
   * when the vector is not `get key`, `set key value` or `del key`; the key
   * space is then unchanged.
   */
  lemma UnknownAnswersErr(entries: KeySpace, cmd: seq<Bytes>)
    ensures var (reply, after) := Execute(entries, cmd);
            && (reply.code == ResErr
                <==> !((|cmd| == 2 && CmdIs(cmd[0], GetCmd))
                       || (|cmd| == 3 && CmdIs(cmd[0], SetCmd))
                       || (|cmd| == 2 && CmdIs(cmd[0], DelCmd))))
            && (reply.code == ResErr ==> reply.body == UnknownCmd && |reply.body| == 11 && after == entries)
  {
  }

  /** Every value in the key space fits a reply: `MaxValue` bytes at most. */
  ghost predicate ValuesFit(entries: KeySpace) {
    forall k :: k in entries ==> |entries[k]| <= MaxValue
  }

  /** A payload of at most `MaxMsg` bytes keeps every value within `MaxValue`, and its reply body too. */
  lemma ExecuteKeepsValuesFit(entries: KeySpace, req: Bytes)
    requires ValuesFit(entries) && |req| <= MaxMsg && Decode(req).Some?
    ensures var (reply, after) := Execute(entries, Decode(req).value);
            ValuesFit(after) && |reply.body| <= MaxValue
  {
    var cmd := Decode(req).value;
    if |cmd| == 3 {
      DecodedArgFits(req, 2);
    }
  }

  /** `g_map`: the key space the commands act on. */
  class Store {
    var entries: KeySpace

    ghost predicate Valid()
      reads this
    {
      ValuesFit(entries)
    }

    /** The empty key space. */
    constructor ()
      ensures Valid() && entries == map[]
    {
      entries := map[];
    }

    /** `do_get`: the value of `cmd[1]` with `RES_OK`, or `RES_NX` when the key is absent. */
    method DoGet(cmd: seq<Bytes>) returns (code: nat, body: Bytes)
      requires Valid() && |cmd| >= 2
      ensures cmd[1] in entries ==> code == ResOk && body == entries[cmd[1]]
      ensures cmd[1] !in entries ==> code == ResNx && body == []
      ensures |body| <= MaxMsg
    {
      if cmd[1] !in entries {
        return ResNx, [];
      }
      body := entries[cmd[1]];
      code := ResOk;
    }

    /** `do_set`: `cmd[1]` now maps to `cmd[2]`, replacing any earlier value. */
    method DoSet(cmd: seq<Bytes>) returns (code: nat)
      requires Valid() && |cmd| >= 3 && |cmd[2]| <= MaxValue
      modifies this
      ensures Valid() && entries == old(entries)[cmd[1] := cmd[2]] && code == ResOk
    {
      entries := entries[cmd[1] := cmd[2]];
      code := ResOk;
    }

    /** `do_del`: `cmd[1]` is absent afterwards; `RES_OK` whether or not it was there. */
    method DoDel(cmd: seq<Bytes>) returns (code: nat)
      requires Valid() && |cmd| >= 2
      modifies this
      ensures Valid() && entries == old(entries) - {cmd[1]} && code == ResOk
    {
      entries := entries - {cmd[1]};
      code := ResOk;
    }

    /**
     * `do_request`: -1 for a payload `parse_req` rejects, leaving the key
     * space alone; otherwise 0 with the reply and key space of `Execute`.
     */
    method DoRequest(req: Bytes) returns (err: int, reply: Reply)
      requires Valid() && |req| <= MaxMsg
      modifies this
      ensures Valid()
      ensures err == 0 || err == -1
      ensures err == -1 <==> Decode(req).None?
      ensures err == -1 ==> entries == old(entries)
      ensures err == 0 ==> (reply, entries) == Execute(old(entries), Decode(req).value)
      ensures |reply.body| <= MaxValue && reply.code <= ResNx
    {
      var rc, cmd := ParseReq(req);
      if rc != 0 {
        return -1, Reply(ResErr, []);
      }
      ExecuteKeepsValuesFit(entries, req);
      var code: nat;
      var body: Bytes := [];
      if |cmd| == 2 && CmdIs(cmd[0], GetCmd) {
        code, body := DoGet(cmd);
      } else if |cmd| == 3 && CmdIs(cmd[0], SetCmd) {
        DecodedArgFits(req, 2);
        code := DoSet(cmd);
      } else if |cmd| == 2 && CmdIs(cmd[0], DelCmd) {
        code := DoDel(cmd);
      } else {
        code, body := ResErr, UnknownCmd;
      }
      return 0, Reply(code, body);
    }
  }
}
