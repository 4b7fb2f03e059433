/** The CGI gateway of src/CGI.cpp: the environment block handed to the
    script (the meta-variables of section 4.1 of RFC 3875, one fixed
    1024-byte `KEY=value` buffer per variable), the bounded in-place
    rewrite of a value, the argument vector, and how the child's exit is
    classified.  Pipes, fork, execve and waitpid are left to the caller:
    what they report is an input (`Outcome`). */
module Cgi {
  import opened Utils

  const BUF_SIZE: nat := 1024
  /** strncat keeps the whole entry within 1023 characters plus its NUL. */
  const MAX_ENTRY: nat := 1023
  const SLOTS: nat := 18

  /** A variable name: short, and holding neither '=' nor NUL. */
  type Key = k: string | '=' !in k && '\0' !in k && |k| < 20 witness "A"

  /** The variable names of the block, in slot order. */
  const ENV_KEYS: seq<Key> := REMOTE_KEYS + REQUEST_KEYS + SERVER_KEYS

  const REMOTE_KEYS: seq<Key> :=
    ["PATH_INFO", "PATH_TRANSLATED", "REMOTE_HOST", "REMOTE_ADDR", "REMOTE_USER",
     "REMOTE_IDENT"]
  const REQUEST_KEYS: seq<Key> :=
    ["AUTH_TYPE", "QUERY_STRING", "REQUEST_METHOD", "SCRIPT_NAME", "CONTENT_LENGTH",
     "CONTENT_TYPE"]
  const SERVER_KEYS: seq<Key> :=
    ["GATEWAY_INTERFACE", "SERVER_NAME", "SERVER_SOFTWARE", "SERVER_PROTOCOL",
     "SERVER_PORT", "REDIRECT_STATUS"]

  // ---------------------------------------------------------------------
  // C strings in fixed buffers

  /** The buffer holds a terminating NUL. */
  predicate Terminated(buf: array<char>)
    reads buf
  {
    '\0' in buf[..]
  }

  /** The C string a buffer holds. */
  function CStr(buf: array<char>): string
    reads buf
  {
    UpToNul(buf[..])
  }

  /** At most n characters of s. */
  function Take(s: string, n: nat): (r: string)
    ensures |r| <= n && |r| <= |s| && r == s[..|r|]
    ensures |s| <= n ==> r == s
  {
    if |s| <= n then s else s[..n]
  }

  /** setValue on the C string s: unchanged without a '='; otherwise cut
      after the first '=' and followed by as much of the value's C string as
      fits in 1023 characters. */
  function SetValueSpec(s: string, v: string): string
  {
    var i := FindFrom(s, '=', 0);
    if i == |s| then s else s[..i + 1] + Take(UpToNul(v), Room(i + 1))
  }

  /** strncat's bound `1023 - strlen(env)`, a size_t. */
  function Room(len: nat): nat
  {
    if len <= MAX_ENTRY then MAX_ENTRY - len else (MAX_ENTRY - len) % SIZE_MOD
  }

  /** Within the buffer the bound does not wrap. */
  lemma RoomFits(len: nat)
    requires len <= MAX_ENTRY
    ensures Room(len) == MAX_ENTRY - len
  {
  }

  /** setValue on an entry whose first '=' is at i, within the buffer. */
  lemma SetValueAt(s: string, v: string, i: nat)
    requires i < |s| <= MAX_ENTRY && FindFrom(s, '=', 0) == i
    ensures SetValueSpec(s, v) == s[..i + 1] + Take(UpToNul(v), MAX_ENTRY - (i + 1))
  {
    RoomFits(i + 1);
  }

  /** An entry holding a '=' keeps everything up to the first one and stays
      within 1023 characters. */
  lemma SetValueKeepsKey(s: string, v: string)
    requires |s| <= MAX_ENTRY && FindFrom(s, '=', 0) < |s|
    ensures var i := FindFrom(s, '=', 0);
            var r := SetValueSpec(s, v);
            |r| <= MAX_ENTRY && r[..i + 1] == s[..i + 1]
            && r[i + 1..] == Take(UpToNul(v), MAX_ENTRY - (i + 1))
  {
    var i := FindFrom(s, '=', 0);
    var a := s[..i + 1];
    var t := Take(UpToNul(v), MAX_ENTRY - (i + 1));
    SetValueAt(s, v, i);
    var r := a + t;
    assert |r| == |a| + |t| <= MAX_ENTRY;
    assert r[..|a|] == a && r[|a|..] == t;
  }

  /** Two successive setValue calls on one entry leave what the second
      alone would: the value is replaced, never appended to. */
  lemma SetValueTwice(s: string, v1: string, v2: string)
    requires |s| <= MAX_ENTRY
    ensures SetValueSpec(SetValueSpec(s, v1), v2) == SetValueSpec(s, v2)
  {
    var i := FindFrom(s, '=', 0);
    if i < |s| {
      var r := SetValueSpec(s, v1);
      assert r[..i] == s[..i] && r[i] == '=';
      FindFromPrefix(r, s, i);
      assert r[..i + 1] == s[..i + 1];
    }
  }

  /** The first '=' sits where it sat in a string that agrees up to it. */
  lemma FindFromPrefix(r: string, s: string, i: nat)
    requires i < |r| && i < |s| && r[..i] == s[..i] && r[i] == '='
    requires FindFrom(s, '=', 0) == i
    ensures FindFrom(r, '=', 0) == i
  {
    assert forall k :: 0 <= k < i ==> r[k] == s[k];
    assert forall k :: 0 <= k < i ==> r[k] != '=';
  }

  /** On a fresh `KEY=` entry the value's C string follows the '=', cut so
      that the entry stays within 1023 characters. */
  lemma SetValueOnKey(key: string, v: string)
    requires '=' !in key && |key| < MAX_ENTRY
    ensures SetValueSpec(key + "=", v)
            == key + "=" + Take(UpToNul(v), MAX_ENTRY - |key| - 1)
    ensures |SetValueSpec(key + "=", v)| <= MAX_ENTRY
  {
    var s := key + "=";
    assert s[|key|] == '=';
    assert forall k :: 0 <= k < |key| ==> s[k] == key[k];
    var i := FindFrom(s, '=', 0);
    assert i == |key|;
    assert s[..i + 1] == s;
    SetValueAt(s, v, i);
  }

  /** ... and takes it whole when it fits and holds no NUL. */
  lemma SetValueOnKeyWhole(key: string, v: string)
    requires '=' !in key && '\0' !in v
    requires |key| + 1 + |v| <= MAX_ENTRY
    ensures SetValueSpec(key + "=", v) == key + "=" + v
  {
    SetValueOnKey(key, v);
    assert UpToNul(v) == v;
  }

  /** The C string of a terminated buffer ends at a NUL inside it. */
  lemma CStrInside(buf: array<char>)
    requires Terminated(buf)
    ensures |CStr(buf)| < buf.Length && buf[|CStr(buf)|] == '\0'
    ensures CStr(buf) == buf[..|CStr(buf)|]
  {
    var k :| 0 <= k < buf.Length && buf[k] == '\0';
    assert |CStr(buf)| <= k;
  }

  /** strchr(env, '='): the index of the first '=' of the C string, or its
      length (where the NUL is) when it has none. */
  method StrChr(buf: array<char>, c: char) returns (i: nat)
    requires Terminated(buf) && c != '\0'
    ensures i == FindFrom(CStr(buf), c, 0)
    ensures i < buf.Length && (buf[i] == '\0' <==> i == |CStr(buf)|)
  {
    ghost var s := CStr(buf);
    CStrInside(buf);
    i := 0;
    while buf[i] != '\0' && buf[i] != c
      invariant 0 <= i <= |s|
      invariant forall k :: 0 <= k < i ==> s[k] != c
      decreases |s| - i
    {
      i := i + 1;
    }
  }

  /** strncat(env, value.c_str(), n): appends at most n characters of the
      value's C string after the buffer's, then a NUL. */
  method StrNCat(buf: array<char>, value: string, n: nat)
    requires Terminated(buf)
    requires |CStr(buf)| + n < buf.Length
    modifies buf
    ensures Terminated(buf)
    ensures CStr(buf) == old(CStr(buf)) + Take(UpToNul(value), n)
  {
    ghost var s := CStr(buf);
    ghost var v := UpToNul(value);
    CStrInside(buf);
    var len := StrLen(buf);
    var j := 0;
    while j < n && j < |value| && value[j] != '\0'
      invariant 0 <= j <= n && j <= |v|
      invariant v[..j] == value[..j]
      invariant buf[..len] == s
      invariant forall k :: len <= k < len + j ==> buf[k] == v[k - len]
    {
      buf[len + j] := value[j];
      j := j + 1;
    }
    buf[len + j] := '\0';
    if j < n && j < |value| {
      // the loop stopped at the value's NUL
      assert value[..j] == v[..j];
      assert '\0' !in value[..j];
      UpToNulAt(value, j);
    }
    assert j == |Take(v, n)|;
    Appended(buf[..], s, Take(v, n));
  }

  /** A NUL after a NUL-free string and a NUL-free suffix ends the C string
      there. */
  lemma Appended(b: seq<char>, s: string, t: string)
    requires |s| + |t| < |b| && b[..|s|] == s && b[|s| + |t|] == '\0'
    requires forall k :: |s| <= k < |s| + |t| ==> b[k] == t[k - |s|]
    requires '\0' !in s && '\0' !in t
    ensures UpToNul(b) == s + t
  {
    assert b[..|s| + |t|] == s + t;
    UpToNulAt(b, |s| + |t|);
  }

  /** strlen. */
  method StrLen(buf: array<char>) returns (len: nat)
    requires Terminated(buf)
    ensures len == |CStr(buf)|
  {
    CStrInside(buf);
    len := 0;
    while buf[len] != '\0'
      invariant 0 <= len <= |CStr(buf)|
      decreases |CStr(buf)| - len
    {
      len := len + 1;
    }
  }

  /** setValue (src/CGI.cpp:42-50): strchr finds the first '=', a NUL is
      written after it, and strncat appends at most 1023 - strlen
      characters of the value's C string, then a NUL. */
  method SetValue(buf: array<char>, value: string)
    requires buf.Length == BUF_SIZE && Terminated(buf)
    modifies buf
    ensures Terminated(buf)
    ensures CStr(buf) == SetValueSpec(old(CStr(buf)), value)
  {
    ghost var s := CStr(buf);
    CStrInside(buf);
    var i := StrChr(buf, '=');
    if buf[i] == '\0' {
      return;
    }
    buf[i + 1] := '\0';
    assert buf[..i + 1] == s[..i + 1];
    UpToNulAt(buf[..], i + 1);
    var len := StrLen(buf);
    StrNCat(buf, value, Room(len));
  }

  /** strcpy of a NUL-free string that fits. */
  method StrCpy(buf: array<char>, src: string)
    requires '\0' !in src && |src| < buf.Length
    modifies buf
    ensures Terminated(buf) && CStr(buf) == src
  {
    var j := 0;
    while j < |src|
      invariant 0 <= j <= |src|
      invariant buf[..j] == src[..j]
    {
      buf[j] := src[j];
      j := j + 1;
    }
    buf[j] := '\0';
    assert buf[..j] == src;
    UpToNulAt(buf[..], j);
  }

  // ---------------------------------------------------------------------
  // The environment block

  /** What the block's values are taken from: the request, its client,
      its location and its server block, and the two build-time strings. */
  datatype CgiInput = CgiInput(
    resolvedPath: string, host: string, ipAddr: string, authSet: bool,
    query: string, reqMethod: string, bodyLength: nat, contentType: string,
    gatewayInterface: string, authority: string, serverSoftware: string,
    port: int)

  /** The value setEnv gives each slot, in slot order. */
  function Values(input: CgiInput): (r: seq<string>)
    ensures |r| == SLOTS
  {
    ["", input.resolvedPath, input.host, input.ipAddr, "", "",
     if input.authSet then "Basic" else "", input.query, input.reqMethod,
     input.resolvedPath, IntToString(ToInt32(input.bodyLength)), input.contentType,
     input.gatewayInterface, input.authority, input.serverSoftware,
     "HTTP/1.1", IntToString(ToInt32(input.port)), "200"]
  }

  /** The slots of the block: 18 distinct 1024-character buffers, each holding
      a C string, and a null after them. */
  predicate Block(env: array<array?<char>>)
    reads env, set i | 0 <= i < env.Length && env[i] != null :: env[i]
  {
    Slots(env) && forall i :: 0 <= i < SLOTS ==> Terminated(env[i])
  }

  /** The pointers of the block, whatever the buffers hold. */
  predicate Slots(env: array<array?<char>>)
    reads env
  {
    env.Length == SLOTS + 1 && env[SLOTS] == null
    && (forall i :: 0 <= i < SLOTS ==> env[i] != null && env[i].Length == BUF_SIZE)
    && (forall i, j :: 0 <= i < j < SLOTS ==> env[i] != env[j])
  }

  /** The allocation loop of initEnv: 18 distinct zeroed buffers and a null. */
  method AllocBlock() returns (env: array<array?<char>>)
    ensures fresh(env) && Slots(env)
    ensures forall k :: 0 <= k < SLOTS ==> fresh(env[k])
  {
    env := new array?<char>[SLOTS + 1](_ => null);
    var i := 0;
    while i < SLOTS
      invariant 0 <= i <= SLOTS
      invariant forall k :: 0 <= k < i ==>
                  env[k] != null && fresh(env[k]) && env[k].Length == BUF_SIZE
      invariant forall k :: i <= k <= SLOTS ==> env[k] == null
      invariant forall k, l :: 0 <= k < l < i ==> env[k] != env[l]
    {
      env[i] := new char[BUF_SIZE](_ => '\0');
      i := i + 1;
    }
  }

  /** initEnv (src/CGI.cpp:317-346): 18 zeroed 1024-character buffers, each
      holding its variable name and '=', then a null. */
  method InitEnv() returns (env: array<array?<char>>)
    ensures fresh(env) && Block(env)
    ensures forall i :: 0 <= i < SLOTS ==> fresh(env[i])
    ensures forall i :: 0 <= i < SLOTS ==> CStr(env[i]) == ENV_KEYS[i] + "="
  {
    env := AllocBlock();
    var i := 0;
    while i < SLOTS
      invariant 0 <= i <= SLOTS
      invariant Slots(env) && forall k :: 0 <= k < SLOTS ==> fresh(env[k])
      invariant forall k :: 0 <= k < i ==> Terminated(env[k])
      invariant forall k :: 0 <= k < i ==> CStr(env[k]) == ENV_KEYS[k] + "="
    {
      FillSlot(env, i);
      i := i + 1;
    }
  }

  /** One strcpy of initEnv: the slot's name and '='; the others keep their
      contents. */
  method FillSlot(env: array<array?<char>>, i: nat)
    requires Slots(env) && i < SLOTS
    modifies env[i]
    ensures Terminated(env[i]) && CStr(env[i]) == ENV_KEYS[i] + "="
    ensures forall k :: 0 <= k < SLOTS && k != i ==> env[k][..] == old(env[k][..])
  {
    StrCpy(env[i], ENV_KEYS[i] + "=");
  }

  /** setEnv (src/CGI.cpp:87-143): every slot's value is replaced by the
      request's, through setValue. */
  method SetEnv(env: array<array?<char>>, input: CgiInput)
    requires Block(env)
    modifies set i | 0 <= i < SLOTS :: env[i]
    ensures Block(env)
    ensures forall i :: 0 <= i < SLOTS ==>
              CStr(env[i]) == SetValueSpec(old(CStr(env[i])), Values(input)[i])
  {
    SetSlots(env, Values(input));
  }

  /** setValue on each slot in turn, with the value of the same index. */
  method SetSlots(env: array<array?<char>>, values: seq<string>)
    requires Block(env) && |values| == SLOTS
    modifies set i | 0 <= i < SLOTS :: env[i]
    ensures Block(env)
    ensures forall i :: 0 <= i < SLOTS ==>
              CStr(env[i]) == SetValueSpec(old(CStr(env[i])), values[i])
  {
    var i := 0;
    while i < SLOTS
      invariant 0 <= i <= SLOTS
      invariant Block(env)
      invariant forall k :: 0 <= k < i ==>
                  CStr(env[k]) == SetValueSpec(old(CStr(env[k])), values[k])
      invariant forall k :: i <= k < SLOTS ==> env[k][..] == old(env[k][..])
    {
      SetSlot(env, i, values[i]);
      i := i + 1;
    }
  }

  /** setValue on one slot: the others keep their contents. */
  method SetSlot(env: array<array?<char>>, i: nat, value: string)
    requires Block(env) && i < SLOTS
    modifies env[i]
    ensures Block(env)
    ensures CStr(env[i]) == SetValueSpec(old(CStr(env[i])), value)
    ensures forall k :: 0 <= k < SLOTS && k != i ==> env[k][..] == old(env[k][..])
  {
    SetValue(env[i], value);
  }

  /** Every slot of a block fresh from initEnv holds, after setEnv, its name,
      '=' and the request's value, cut to keep the entry within 1023
      characters. */
  lemma SetEnvOnFreshBlock(input: CgiInput, i: nat)
    requires i < SLOTS
    ensures SetValueSpec(ENV_KEYS[i] + "=", Values(input)[i])
            == ENV_KEYS[i] + "=" + Take(UpToNul(Values(input)[i]), MAX_ENTRY - |ENV_KEYS[i]| - 1)
  {
    SetValueOnKey(ENV_KEYS[i], Values(input)[i]);
  }

  /** The block is reused from request to request: the second setEnv leaves
      each slot as if the first had not happened. */
  lemma SetEnvForgetsPrevious(first: CgiInput, second: CgiInput, i: nat)
    requires i < SLOTS
    ensures SetValueSpec(SetValueSpec(ENV_KEYS[i] + "=", Values(first)[i]), Values(second)[i])
            == SetValueSpec(ENV_KEYS[i] + "=", Values(second)[i])
  {
    SetValueTwice(ENV_KEYS[i] + "=", Values(first)[i], Values(second)[i]);
  }

  /** CONTENT_LENGTH carries the body length in decimal, read back exactly
      when it fits an int. */
  lemma ContentLengthEntry(input: CgiInput)
    requires input.bodyLength <= INT_MAX
    ensures SetValueSpec(ENV_KEYS[10] + "=", Values(input)[10])
            == "CONTENT_LENGTH=" + IntToString(input.bodyLength)
    ensures SignedValue(IntToString(input.bodyLength)) == input.bodyLength
  {
    var v := IntToString(input.bodyLength);
    assert Values(input)[10] == v;
    IntToStringShort(input.bodyLength);
    IntToStringRoundTrip(input.bodyLength);
    SetValueOnKeyWhole("CONTENT_LENGTH", v);
  }

  /** SERVER_PORT carries the server block's port in decimal. */
  lemma ServerPortEntry(input: CgiInput)
    requires 0 <= input.port <= INT_MAX
    ensures SetValueSpec(ENV_KEYS[16] + "=", Values(input)[16])
            == "SERVER_PORT=" + IntToString(input.port)
    ensures SignedValue(IntToString(input.port)) == input.port
  {
    var v := IntToString(input.port);
    assert Values(input)[16] == v;
    IntToStringShort(input.port);
    IntToStringRoundTrip(input.port);
    SetValueOnKeyWhole("SERVER_PORT", v);
  }

  /** AUTH_TYPE names Basic exactly when the location has authentication set. */
  lemma AuthTypeEntry(input: CgiInput)
    ensures SetValueSpec(ENV_KEYS[6] + "=", Values(input)[6])
            == if input.authSet then "AUTH_TYPE=Basic" else "AUTH_TYPE="
  {
    var v := if input.authSet then "Basic" else "";
    assert Values(input)[6] == v;
    SetValueOnKeyWhole("AUTH_TYPE", v);
  }

  // ---------------------------------------------------------------------
  // Running the script

  /** One read(2) on the child's stdout pipe: up to 299 bytes, or a failure. */
  datatype Chunk = Bytes(data: string) | ReadFailed

  /** What the pipes, fork, write and waitpid report: a failure before the
      child's status is known, a status killed by a signal, stopped, exited
      with its code and followed by the reads of its output, or none of
      these. */
  datatype Outcome =
    | PlumbingFailed
    | Signaled
    | Stopped
    | Exited(code: int, chunks: seq<Chunk>)
    | Unclassified

  /** What the read loop appends: the C string of each chunk, up to the
      first empty read (end of output) or failed read. */
  function Collected(chunks: seq<Chunk>): (r: string)
    ensures '\0' !in r
  {
    if chunks == [] then ""
    else match chunks[0]
      case ReadFailed => ""
      case Bytes(d) => if d == [] then "" else UpToNul(d) + Collected(chunks[1..])
  }

  /** A chunk that neither ends nor fails the loop. */
  predicate Continues(c: Chunk) { c.Bytes? && c.data != [] }

  /** Output read in several runs of reads is the concatenation of what each
      run gives, as long as the earlier runs do not end the loop. */
  lemma {:induction false} CollectedAppend(a: seq<Chunk>, b: seq<Chunk>)
    requires forall k :: 0 <= k < |a| ==> Continues(a[k])
    ensures Collected(a + b) == Collected(a) + Collected(b)
  {
    if a == [] {
      assert a + b == b;
    } else {
      var d := a[0].data;
      assert Continues(a[0]) && a[0] == Bytes(d);
      assert (a + b)[0] == a[0];
      assert (a + b)[1..] == a[1..] + b;
      CollectedAppend(a[1..], b);
      assert Collected(a) == UpToNul(d) + Collected(a[1..]);
      assert Collected(a + b) == UpToNul(d) + Collected(a[1..] + b);
    }
  }

  /** Nothing read after the end of output or a failed read is kept. */
  lemma CollectedStops(a: seq<Chunk>, c: Chunk, b: seq<Chunk>)
    requires forall k :: 0 <= k < |a| ==> Continues(a[k])
    requires !Continues(c)
    ensures Collected(a + [c] + b) == Collected(a)
  {
    CollectedAppend(a, [c] + b);
    assert a + [c] + b == a + ([c] + b);
  }

  /** exec's return value: 1 after a clean exit or an unclassified status. */
  function ExitValue(outcome: Outcome): (r: int)
    ensures r == 1 || r == 0
    ensures r == 1 <==> outcome.Unclassified? || (outcome.Exited? && outcome.code == 0)
  {
    match outcome
      case Exited(code, _) => if code == 0 then 1 else 0
      case Unclassified => 1
      case _ => 0
  }

  /** The state of src/CGI.cpp's CGI object: whether the script is a compiled
      `.cgi` program, the interpreter, the script, the collected output and
      the three-slot argument vector (None for a null pointer). */
  class Cgi {
    var compiled: bool
    var execPath: string
    var filepath: string
    var res: string
    var args: (Option<string>, Option<string>, Option<string>)

    /** src/CGI.cpp:7-11: not compiled, all three arguments null. */
    constructor()
      ensures !compiled && args == (None, None, None)
      ensures execPath == "" && filepath == "" && res == ""
    {
      compiled := false;
      execPath := "";
      filepath := "";
      res := "";
      args := (None, None, None);
    }

    method SetCompiled(value: bool)
      modifies this
      ensures compiled == value
      ensures execPath == old(execPath) && filepath == old(filepath)
      ensures res == old(res) && args == old(args)
    {
      compiled := value;
    }

    function IsCompiled(): bool
      reads this
    {
      compiled
    }

    method SetExecPath(path: string)
      modifies this
      ensures execPath == path
      ensures compiled == old(compiled) && filepath == old(filepath)
      ensures res == old(res) && args == old(args)
    {
      execPath := path;
    }

    function GetExecPath(): string
      reads this
    {
      execPath
    }

    /** Stores the script's path and always reports success. */
    method SetScriptPath(path: string) returns (ok: bool)
      modifies this
      ensures ok && filepath == path
      ensures compiled == old(compiled) && execPath == old(execPath)
      ensures res == old(res) && args == old(args)
    {
      filepath := path;
      ok := true;
    }

    function GetResult(): string
      reads this
    {
      res
    }

    method Reset()
      modifies this
      ensures res == ""
      ensures compiled == old(compiled) && execPath == old(execPath)
      ensures filepath == old(filepath) && args == old(args)
    {
      res := "";
    }

    /** Whether exec gets past its first check: an interpreted script, or a
        compiled one that is an executable file. */
    predicate MayRun(fs: FileSystem)
      reads this
    {
      !compiled || IsExecutableFile(fs, filepath)
    }

    /** exec (src/CGI.cpp:181-315): refuses a compiled script that is not an
        executable file; otherwise sets the argument vector (the script
        alone, or the interpreter and the script), and after a clean exit
        appends the script's output to the result. */
    method Exec(fs: FileSystem, outcome: Outcome) returns (ret: int)
      modifies this
      ensures compiled == old(compiled) && execPath == old(execPath)
      ensures filepath == old(filepath)
      ensures ret == (if old(MayRun(fs)) then ExitValue(outcome) else 0)
      ensures args == if !old(MayRun(fs)) then old(args)
                      else if compiled then (Some(filepath), Some(""), old(args).2)
                      else (Some(execPath), Some(filepath), old(args).2)
      ensures res == if old(MayRun(fs)) && outcome.Exited? && outcome.code == 0
                     then old(res) + Collected(outcome.chunks) else old(res)
    {
      if compiled && !IsExecutableFile(fs, filepath) {
        return 0;
      }
      if compiled {
        args := (Some(filepath), Some(""), args.2);
      } else {
        args := (Some(execPath), Some(filepath), args.2);
      }
      match outcome {
        case PlumbingFailed => return 0;
        case Signaled => return 0;
        case Stopped => return 0;
        case Unclassified => return 1;
        case Exited(code, chunks) =>
          if code != 0 {
            return 0;
          }
          ReadOutput(chunks);
          return 1;
      }
    }

    /** The read loop of exec (src/CGI.cpp:298-310): each read's C string is
        appended until a read returns nothing or fails. */
    method ReadOutput(chunks: seq<Chunk>)
      modifies this
      ensures res == old(res) + Collected(chunks)
      ensures compiled == old(compiled) && execPath == old(execPath)
      ensures filepath == old(filepath) && args == old(args)
    {
      var i := 0;
      var more := true;
      while more && i < |chunks|
        invariant 0 <= i <= |chunks|
        invariant compiled == old(compiled) && execPath == old(execPath)
        invariant filepath == old(filepath) && args == old(args)
        invariant more ==> old(res) + Collected(chunks) == res + Collected(chunks[i..])
        invariant !more ==> res == old(res) + Collected(chunks)
        decreases |chunks| - i, more
      {
        match chunks[i] {
          case ReadFailed =>
            more := false;
          case Bytes(d) =>
            assert chunks[i..][1..] == chunks[i + 1..];
            res := res + UpToNul(d);
            more := d != [];
        }
        i := i + 1;
      }
    }
  }
}
