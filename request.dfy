/** The request parser of src/Request.cpp: a state machine driven by three
    parse flags that reads the request line (section 3 of RFC 9112), then
    header lines, then the body.  Header names are case-insensitive
    (section 5.1 of RFC 9110): they are lower-cased and looked up in a
    closed vocabulary of recognised names. */
module Request {
  import opened Utils

  /** The `HTTP::StatusCode` values the parser returns. */
  const CONTINUE: int := 100
  const BAD_REQUEST: int := 400
  const NOT_IMPLEMENTED: int := 501
  const HTTP_VERSION_NOT_SUPPORTED: int := 505

  /** Parse-progress bits of `_parseFlags`. */
  const PARSED_NONE: bv8 := 0
  const PARSED_SL: bv8 := 1
  const PARSED_HEADERS: bv8 := 2
  const PARSED_BODY: bv8 := 4

  /** The nine methods isValidMethod accepts, in its order. */
  const VALID_METHODS: seq<string> :=
    ["GET", "DELETE", "POST", "PUT", "HEAD", "CONNECT", "OPTIONS", "TRACE", "PATCH"]
  const PROTOCOL_VALID: string := "HTTP/1.1"
  /** The blanks parseHeader skips around a header value. */
  const VALUE_BLANKS: set<char> := {' ', '\t', '\n', '\r'}

  /** What a C++ routine does when run on its input: return a status code,
      or index a std::string out of range (undefined behaviour). */
  datatype Outcome = Status(code: int) | OutOfRange

  // ---------------------------------------------------------------------
  // Token checks

  /** The verdict of isValidMethod on `m`. */
  function MethodStatus(m: string): int
  {
    if m in VALID_METHODS then CONTINUE else NOT_IMPLEMENTED
  }

  /** isValidMethod (src/Request.cpp:86-96): a linear search of the nine
      methods; CONTINUE exactly for a listed method, NOT_IMPLEMENTED for
      anything else. */
  method IsValidMethod(m: string) returns (status: int)
    ensures status == CONTINUE <==> m in VALID_METHODS
    ensures status == CONTINUE || status == NOT_IMPLEMENTED
    ensures status == MethodStatus(m)
  {
    var i := 0;
    while i < |VALID_METHODS|
      invariant 0 <= i <= |VALID_METHODS|
      invariant forall k :: 0 <= k < i ==> VALID_METHODS[k] != m
    {
      if VALID_METHODS[i] == m {
        return CONTINUE;
      }
      i := i + 1;
    }
    return NOT_IMPLEMENTED;
  }

  /** isValidPath (src/Request.cpp:98-103): `path[0]` must be '/'; the empty
      path reads its terminating NUL there and is refused. */
  function IsValidPath(path: string): (r: int)
    ensures r == CONTINUE <==> path != [] && path[0] == '/'
    ensures r == CONTINUE || r == BAD_REQUEST
  {
    if At(path, 0) != '/' then BAD_REQUEST else CONTINUE
  }

  /** isValidProtocol (src/Request.cpp:105-110): only the exact token
      "HTTP/1.1" is supported; anything else, "HTTP/1.0" included, is
      HTTP_VERSION_NOT_SUPPORTED. */
  function IsValidProtocol(protocol: string): (r: int)
    ensures r == CONTINUE <==> protocol == "HTTP/1.1"
    ensures r == CONTINUE || r == HTTP_VERSION_NOT_SUPPORTED
  {
    if PROTOCOL_VALID == protocol then CONTINUE else HTTP_VERSION_NOT_SUPPORTED
  }

  // ---------------------------------------------------------------------
  // The request line

  /** The three words of a request line and where the scan stops: words are
      separated by runs of blanks, and `tail` is the first non-blank after
      the third word (or the end of the line). */
  datatype StartLine = StartLine(verb: string, target: string, version: string, tail: nat)

  /** The positions the scan of a request line passes: the end of each word
      (`e1`, `e2`, `e3`, where the first blank after it is, or the end of
      the line) and the start of the next (`p1`, `p2`, `tail`, after the
      run of blanks). */
  datatype Scan = Scan(e1: nat, p1: nat, e2: nat, p2: nat, e3: nat, tail: nat)

  function ScanStartLine(line: string): (r: Scan)
    ensures r.e1 <= r.p1 <= r.e2 <= r.p2 <= r.e3 <= r.tail <= |line|
  {
    var e1 := FindFrom(line, ' ', 0);
    var p1 := SkipFrom(line, e1);
    var e2 := FindFrom(line, ' ', p1);
    var p2 := SkipFrom(line, e2);
    var e3 := FindFrom(line, ' ', p2);
    Scan(e1, p1, e2, p2, e3, SkipFrom(line, e3))
  }

  function SplitStartLine(line: string): (r: StartLine)
    ensures r.tail <= |line|
    ensures ' ' !in r.verb && ' ' !in r.target && ' ' !in r.version
    ensures r.tail < |line| ==> line[r.tail] != ' '
  {
    var sc := ScanStartLine(line);
    StartLine(line[..sc.e1], line[sc.p1..sc.e2], line[sc.p2..sc.e3], sc.tail)
  }

  /** The status parseStartLine returns, checks taken in the source's order:
      method, target, trailing characters, protocol.  An unsupported
      protocol is refused with BAD_REQUEST, not HTTP_VERSION_NOT_SUPPORTED. */
  function StartLineStatus(line: string): int
  {
    var sl := SplitStartLine(line);
    if MethodStatus(sl.verb) != CONTINUE then NOT_IMPLEMENTED
    else if IsValidPath(sl.target) != CONTINUE then BAD_REQUEST
    else if At(line, sl.tail) != '\0' then BAD_REQUEST
    else if IsValidProtocol(sl.version) != CONTINUE then BAD_REQUEST
    else CONTINUE
  }

  /** Where a getWord that found no delimiter leaves the scan: at the end of
      the line, where the terminating NUL stops skipSpaces. */
  function Resume(next: nat, line: string): nat
  {
    if next == NPOS then |line| else next
  }

  /** One getWord of parseStartLine followed by the move past the word: the
      word runs to the next blank or the end of the line, and the scan
      resumes there. */
  method ReadWord(line: string, pos: nat) returns (word: string, end: nat)
    requires pos <= |line| < NPOS
    ensures end == FindFrom(line, ' ', pos) && word == line[pos..end]
  {
    var next;
    word, next := GetWord(line, ' ', pos);
    end := Resume(next, line);
  }

  /** A run of blanks. */
  predicate AllBlank(g: string)
  {
    forall i :: 0 <= i < |g| ==> g[i] == ' '
  }

  /** A blank-free word, then a run of blanks, then the rest of the line,
      which starts with a non-blank: the search for a blank stops at the
      run ... */
  lemma FindWord(s: string, w: string, g: string, rest: string)
    requires s == w + g + rest && ' ' !in w && AllBlank(g)
    requires g != [] || rest == []
    ensures FindFrom(s, ' ', 0) == |w|
  {
    var u := g + rest;
    assert s == w + u;
    FindFromConcat(w, u, ' ', 0);
    assert FindFrom(u, ' ', 0) == 0 by {
      if g != [] {
        assert u[0] == g[0];
      }
    }
  }

  /** ... and the skip after it stops at the rest. */
  lemma SkipGap(s: string, w: string, g: string, rest: string)
    requires s == w + g + rest && AllBlank(g)
    requires rest == [] || rest[0] != ' '
    ensures SkipFrom(s, |w|) == |w| + |g|
  {
    var u := g + rest;
    assert s == w + u;
    SkipFromShift(w, u, 0);
    SkipBlanks(g, rest);
  }

  /** The skip over a run of blanks stops at the first non-blank after it. */
  lemma SkipBlanks(g: string, rest: string)
    requires AllBlank(g)
    requires rest == [] || rest[0] != ' '
    ensures SkipFrom(g + rest, 0) == |g|
  {
    var u := g + rest;
    assert forall j :: 0 <= j < |g| ==> u[j] == ' ';
    assert |g| < |u| ==> u[|g|] != ' ';
  }

  /** The same search, further into the line: the word starts at |prefix|. */
  lemma FindWordAt(line: string, prefix: string, w: string, g: string, rest: string)
    requires line == prefix + (w + g + rest) && ' ' !in w && AllBlank(g)
    requires g != [] || rest == []
    ensures FindFrom(line, ' ', |prefix|) == |prefix| + |w|
  {
    var s := w + g + rest;
    FindWord(s, w, g, rest);
    FindFromShift(prefix, s, ' ', 0);
  }

  /** The same skip, further into the line. */
  lemma SkipGapAt(line: string, prefix: string, w: string, g: string, rest: string)
    requires line == prefix + (w + g + rest) && AllBlank(g)
    requires rest == [] || rest[0] != ' '
    ensures SkipFrom(line, |prefix| + |w|) == |prefix| + |w| + |g|
  {
    var s := w + g + rest;
    SkipGap(s, w, g, rest);
    SkipFromShift(prefix, s, |w|);
  }

  /** Three blank-free words joined by runs of blanks, the last run possibly
      empty: where the scan of the line stops. */
  lemma ScanThreeWords(m: string, g1: string, t: string, g2: string, v: string, g3: string)
    requires m != [] && t != [] && v != []
    requires ' ' !in m && ' ' !in t && ' ' !in v
    requires g1 != [] && g2 != [] && AllBlank(g1) && AllBlank(g2) && AllBlank(g3)
    ensures var p1 := |m| + |g1|;
            var p2 := p1 + |t| + |g2|;
            ScanStartLine(m + g1 + t + g2 + v + g3)
            == Scan(|m|, p1, p1 + |t|, p2, p2 + |v|, p2 + |v| + |g3|)
  {
    var line := m + g1 + t + g2 + v + g3;
    var p1 := |m| + |g1|;
    var p2 := p1 + |t| + |g2|;
    FirstWord(m, g1, t, g2, v, g3);
    SecondWord(m, g1, t, g2, v, g3);
    ThirdWord(m, g1, t, g2, v, g3);
    ScanOf(line, |m|, p1, p1 + |t|, p2, p2 + |v|, |line|);
  }

  lemma FirstWord(m: string, g1: string, t: string, g2: string, v: string, g3: string)
    requires t != [] && ' ' !in m && ' ' !in t && g1 != [] && AllBlank(g1)
    ensures var line := m + g1 + t + g2 + v + g3;
            FindFrom(line, ' ', 0) == |m| && SkipFrom(line, |m|) == |m| + |g1|
  {
    var line := m + g1 + t + g2 + v + g3;
    var x1 := m + g1;
    var s2 := t + g2 + v + g3;
    Assoc(x1, t, g2);
    Assoc(x1, t + g2, v);
    Assoc(x1, t + g2 + v, g3);
    assert line == [] + (m + g1 + s2);
    assert s2[0] == t[0];
    FindWordAt(line, [], m, g1, s2);
    SkipGapAt(line, [], m, g1, s2);
  }

  lemma SecondWord(m: string, g1: string, t: string, g2: string, v: string, g3: string)
    requires v != [] && ' ' !in t && ' ' !in v && g2 != [] && AllBlank(g2)
    ensures var line := m + g1 + t + g2 + v + g3;
            var p1 := |m| + |g1|;
            FindFrom(line, ' ', p1) == p1 + |t| && SkipFrom(line, p1 + |t|) == p1 + |t| + |g2|
  {
    var line := m + g1 + t + g2 + v + g3;
    var x1 := m + g1;
    var s3 := v + g3;
    Assoc(x1, t + g2, s3);
    Assoc(x1, t, g2);
    Assoc(x1 + t + g2, v, g3);
    assert line == x1 + (t + g2 + s3);
    assert s3[0] == v[0];
    FindWordAt(line, x1, t, g2, s3);
    SkipGapAt(line, x1, t, g2, s3);
  }

  lemma ThirdWord(m: string, g1: string, t: string, g2: string, v: string, g3: string)
    requires ' ' !in v && AllBlank(g3)
    ensures var line := m + g1 + t + g2 + v + g3;
            var p2 := |m| + |g1| + |t| + |g2|;
            FindFrom(line, ' ', p2) == p2 + |v| && SkipFrom(line, p2 + |v|) == |line|
  {
    var line := m + g1 + t + g2 + v + g3;
    var x2 := m + g1 + t + g2;
    Assoc(x2, v, g3);
    assert v + g3 + [] == v + g3;
    assert line == x2 + (v + g3 + []);
    FindWordAt(line, x2, v, g3, []);
    SkipGapAt(line, x2, v, g3, []);
  }

  /** The scan is determined by where its searches and skips stop. */
  lemma ScanOf(line: string, e1: nat, p1: nat, e2: nat, p2: nat, e3: nat, tail: nat)
    requires e1 <= p1 <= e2 <= p2 <= e3 <= |line|
    requires FindFrom(line, ' ', 0) == e1 && SkipFrom(line, e1) == p1
    requires FindFrom(line, ' ', p1) == e2 && SkipFrom(line, e2) == p2
    requires FindFrom(line, ' ', p2) == e3 && SkipFrom(line, e3) == tail
    ensures ScanStartLine(line) == Scan(e1, p1, e2, p2, e3, tail)
  {
  }

  /** The words of such a line, read back by their positions. */
  lemma WordsOfThree(m: string, g1: string, t: string, g2: string, v: string, g3: string)
    ensures var line := m + g1 + t + g2 + v + g3;
            var p1 := |m| + |g1|;
            var p2 := p1 + |t| + |g2|;
            line[..|m|] == m && line[p1..p1 + |t|] == t && line[p2..p2 + |v|] == v
  {
    var line := m + g1 + t + g2 + v + g3;
    var x1 := m + g1;
    var x2 := x1 + t + g2;
    assert line[..|m|] == m by {
      assert line == m + (g1 + t + g2 + v + g3);
    }
    assert line[|x1|..|x1| + |t|] == t by {
      assert line == x1 + (t + (g2 + v + g3));
    }
    assert line[|x2|..|x2| + |v|] == v by {
      assert line == x2 + (v + g3);
    }
  }

  /** A request line of three non-empty blank-free words, separated by runs
      of blanks and optionally followed by blanks, splits into exactly those
      words and is scanned to its end. */
  lemma SplitThreeWords(m: string, g1: string, t: string, g2: string, v: string, g3: string)
    requires m != [] && t != [] && v != []
    requires ' ' !in m && ' ' !in t && ' ' !in v
    requires g1 != [] && g2 != [] && AllBlank(g1) && AllBlank(g2) && AllBlank(g3)
    ensures SplitStartLine(m + g1 + t + g2 + v + g3)
            == StartLine(m, t, v, |m + g1 + t + g2 + v + g3|)
  {
    ScanThreeWords(m, g1, t, g2, v, g3);
    WordsOfThree(m, g1, t, g2, v, g3);
  }

  /** A well-formed request line — a known method, a target starting with
      '/', then HTTP/1.1, single-blank separated — is accepted. */
  lemma WellFormedStartLine(m: string, t: string)
    requires m in VALID_METHODS
    requires t != [] && t[0] == '/' && ' ' !in t
    ensures StartLineStatus(m + " " + t + " " + PROTOCOL_VALID) == CONTINUE
  {
    var line := m + " " + t + " " + PROTOCOL_VALID;
    assert line == m + " " + t + " " + PROTOCOL_VALID + "";
    SplitThreeWords(m, " ", t, " ", PROTOCOL_VALID, "");
  }

  /** An HTTP/1.0 request line is refused with BAD_REQUEST; the version
      check's own HTTP_VERSION_NOT_SUPPORTED never reaches the caller. */
  lemma OldVersionBadRequest(m: string, t: string)
    requires m in VALID_METHODS
    requires t != [] && t[0] == '/' && ' ' !in t
    ensures StartLineStatus(m + " " + t + " HTTP/1.0") == BAD_REQUEST
  {
    var line := m + " " + t + " HTTP/1.0";
    assert line == m + " " + t + " " + "HTTP/1.0" + "";
    SplitThreeWords(m, " ", t, " ", "HTTP/1.0", "");
  }

  /** A method outside the nine is refused with NOT_IMPLEMENTED, whatever
      follows it. */
  lemma UnknownMethodNotImplemented(m: string, rest: string)
    requires m !in VALID_METHODS && ' ' !in m
    ensures StartLineStatus(m + " " + rest) == NOT_IMPLEMENTED
  {
    var line := m + " " + rest;
    assert line == m + (" " + rest);
    FindFromConcat(m, " " + rest, ' ', 0);
    assert line[..|m|] == m;
  }

  /** parseStartLine as written (src/Request.cpp:51-84).  Two things differ
      from the intended parse: each check is written `!isValidX(...)`, a test
      of the returned code against zero, and no status code is zero, so no
      check ever refuses; and when getWord finds no blank after a word it
      leaves `pos` at npos, and the next skipSpaces or `line[pos]` reads
      `line[npos]`.  So the only refusal left is the trailing-text one, and
      a line whose words reach its end overruns. */
  function StartLineAsWritten(line: string): (r: Outcome)
    ensures r == OutOfRange || r == Status(BAD_REQUEST) || r == Status(CONTINUE)
    ensures var sc := ScanStartLine(line);
            r == OutOfRange <==> sc.e1 == |line| || sc.e2 == |line| || sc.e3 == |line|
    ensures r == Status(BAD_REQUEST) <==> r != OutOfRange && At(line, ScanStartLine(line).tail) != '\0'
  {
    var sc := ScanStartLine(line);
    if MethodStatus(line[..sc.e1]) == 0 then Status(NOT_IMPLEMENTED)
    else if sc.e1 == |line| then OutOfRange
    else if IsValidPath(line[sc.p1..sc.e2]) == 0 then Status(BAD_REQUEST)
    else if sc.e2 == |line| then OutOfRange
    else if sc.e3 == |line| then OutOfRange
    else if At(line, sc.tail) != '\0' then Status(BAD_REQUEST)
    else if IsValidProtocol(line[sc.p2..sc.e3]) == 0 then Status(BAD_REQUEST)
    else Status(CONTINUE)
  }

  /** As written, every well-formed request line without trailing blanks
      ends the protocol word at the end of the line and so reads line[npos]. */
  lemma WellFormedLineOverrunsAsWritten(m: string, t: string)
    requires m in VALID_METHODS
    requires t != [] && t[0] == '/' && ' ' !in t
    ensures StartLineAsWritten(m + " " + t + " " + PROTOCOL_VALID) == OutOfRange
  {
    var line := m + " " + t + " " + PROTOCOL_VALID;
    assert line == m + " " + t + " " + PROTOCOL_VALID + "";
    ScanThreeWords(m, " ", t, " ", PROTOCOL_VALID, "");
  }

  /** As written, no check refuses: a line of any three blank-free words
      with a trailing blank — an unknown method, a target without '/', any
      version, such as "FOO x HTTP/1.0 " — is accepted, where the intended
      parse refuses an unknown method with NOT_IMPLEMENTED. */
  lemma BadLineAcceptedAsWritten(m: string, t: string, v: string)
    requires m != [] && t != [] && v != []
    requires ' ' !in m && ' ' !in t && ' ' !in v
    requires m !in VALID_METHODS
    ensures StartLineAsWritten(m + " " + t + " " + v + " ") == Status(CONTINUE)
    ensures StartLineStatus(m + " " + t + " " + v + " ") == NOT_IMPLEMENTED
  {
    ScanThreeWords(m, " ", t, " ", v, " ");
    WordsOfThree(m, " ", t, " ", v, " ");
  }

  // ---------------------------------------------------------------------
  // Header lines

  /** A stored header: the lower-cased line with a NUL over the colon, the
      name length, and the value bounds. */
  datatype Header = Header(line: string, keyLen: nat, valStart: nat, valLen: nat)

  /** The header parseHeader builds from `line` whose first colon is at
      `sep`.  Both value searches start at the colon itself, which is not a
      blank, so the value always starts at the colon and is empty. */
  function HeaderOf(line: string, sep: nat): Header
    requires sep < |line|
  {
    Header(LowerAll(line[sep := '\0']), sep, sep, 0)
  }

  /** The status parseHeader returns for a non-empty line: BAD_REQUEST when
      there is no colon or the lower-cased name is not recognised. */
  function HeaderStatus(line: string, known: set<string>): int
  {
    var sep := FindFrom(line, ':', 0);
    if line == [] then CONTINUE
    else if sep == |line| then BAD_REQUEST
    else if LowerAll(line[..sep]) in known then CONTINUE
    else BAD_REQUEST
  }

  /** The header map after parseHeader: a recognised header is inserted
      under its lower-cased name unless that name is already present. */
  function HeadersAfter(hs: map<string, Header>, line: string, known: set<string>): map<string, Header>
  {
    var sep := FindFrom(line, ':', 0);
    if line == [] || sep == |line| then hs
    else
      var name := LowerAll(line[..sep]);
      if name !in known || name in hs then hs else hs[name := HeaderOf(line, sep)]
  }

  /** Of two header lines with the same name, the first is kept, whatever the
      case of either name. */
  lemma {:induction false} FirstHeaderWins(hs: map<string, Header>, l1: string, l2: string, known: set<string>)
    requires ':' in l1 && ':' in l2
    requires LowerAll(l1[..FindFrom(l1, ':', 0)]) == LowerAll(l2[..FindFrom(l2, ':', 0)])
    requires HeaderStatus(l1, known) == CONTINUE
    ensures var name := LowerAll(l1[..FindFrom(l1, ':', 0)]);
            name in HeadersAfter(HeadersAfter(hs, l1, known), l2, known)
            && HeadersAfter(HeadersAfter(hs, l1, known), l2, known) == HeadersAfter(hs, l1, known)
  {
    var sep1 := FindFrom(l1, ':', 0);
    assert sep1 < |l1| by { ColonFound(l1); }
    var sep2 := FindFrom(l2, ':', 0);
    assert sep2 < |l2| by { ColonFound(l2); }
  }

  lemma ColonFound(line: string)
    requires ':' in line
    ensures FindFrom(line, ':', 0) < |line|
  {
    var i :| 0 <= i < |line| && line[i] == ':';
  }

  /** parseHeader as written (src/Request.cpp:124-157): a non-empty line
      without a colon makes `line.find(':')` npos and `header.line[npos]` is
      written.  Every other line gets the intended status. */
  function HeaderAsWritten(line: string, known: set<string>): (r: Outcome)
    ensures r == OutOfRange <==> line != [] && ':' !in line
    ensures r != OutOfRange ==> r == Status(HeaderStatus(line, known))
  {
    if line != [] && FindFrom(line, ':', 0) == |line| then OutOfRange
    else Status(HeaderStatus(line, known))
  }

  /** As written, the header line "Host" (no colon) writes out of range,
      where the intended parse refuses it with BAD_REQUEST. */
  lemma HeaderWithoutColonAsWritten(known: set<string>)
    ensures HeaderAsWritten("Host", known) == OutOfRange
    ensures HeaderStatus("Host", known) == BAD_REQUEST
  {
    assert ':' !in "Host";
  }

  // ---------------------------------------------------------------------
  // The request

  predicate HasBit(f: bv8, i: nat)
    requires i < 8
  {
    f & ((1 as bv8) << i) != 0
  }

  /** Raising flags keeps every bit already set and sets those of the flag,
      and nothing else. */
  lemma RaiseBits(f: bv8, flag: bv8, i: nat)
    requires i < 8
    ensures HasBit(f | flag, i) == (HasBit(f, i) || HasBit(flag, i))
  {
  }

  /** Clearing flags keeps every bit not in the flag, and only those. */
  lemma ClearBits(f: bv8, flag: bv8, i: nat)
    requires i < 8
    ensures HasBit(f & !flag, i) == (HasBit(f, i) && !HasBit(flag, i))
  {
  }

  class Request {
    var reqMethod: string
    var path: string
    var protocol: string
    var parseFlags: bv8
    /** `_headers`, keyed by the lower-cased header name. */
    var headers: map<string, Header>

    /** Request() (src/Request.cpp:7): no parse flag set, no header. */
    constructor()
      ensures parseFlags == PARSED_NONE && headers == map[]
      ensures reqMethod == [] && path == [] && protocol == []
    {
      parseFlags := PARSED_NONE;
      headers := map[];
      reqMethod, path, protocol := [], [], [];
    }

    /** setFlag (src/Request.cpp:112-114): raises the bits of `flag` and
        leaves every other bit as it was. */
    method SetFlag(flag: bv8)
      modifies this
      ensures parseFlags == old(parseFlags) | flag
      ensures headers == old(headers) && reqMethod == old(reqMethod)
      ensures path == old(path) && protocol == old(protocol)
    {
      parseFlags := parseFlags | flag;
    }

    /** removeFlag (src/Request.cpp:116-118): clears the bits of `flag` and
        leaves every other bit as it was. */
    method RemoveFlag(flag: bv8)
      modifies this
      ensures parseFlags == old(parseFlags) & !flag
      ensures headers == old(headers) && reqMethod == old(reqMethod)
      ensures path == old(path) && protocol == old(protocol)
    {
      parseFlags := parseFlags & !flag;
    }

    /** parseStartLine (src/Request.cpp:51-84), with the checks read as
        "the code is not CONTINUE" and a word that runs to the end of the
        line leaving the scan at the terminating NUL.  The method is always
        stored, the target once the method passed, the protocol once the
        target passed; PARSED_SL is raised exactly on CONTINUE. */
    method ParseStartLine(line: string) returns (status: int)
      requires |line| < NPOS
      modifies this
      ensures status == StartLineStatus(line)
      ensures var sl := SplitStartLine(line);
              && reqMethod == sl.verb
              && path == (if MethodStatus(sl.verb) == CONTINUE then sl.target else old(path))
              && protocol == (if MethodStatus(sl.verb) == CONTINUE && IsValidPath(sl.target) == CONTINUE
                              then sl.version else old(protocol))
      ensures parseFlags == if status == CONTINUE then old(parseFlags) | PARSED_SL else old(parseFlags)
      ensures headers == old(headers)
    {
      ghost var sc := ScanStartLine(line);
      ghost var sl := SplitStartLine(line);
      var pos: nat := 0;
      reqMethod, pos := ReadWord(line, pos);
      assert pos == sc.e1 && reqMethod == sl.verb;
      var st := IsValidMethod(reqMethod);
      if st != CONTINUE {
        assert StartLineStatus(line) == NOT_IMPLEMENTED;
        return NOT_IMPLEMENTED;
      }

      pos := SkipSpaces(line, pos);
      assert pos == sc.p1;
      path, pos := ReadWord(line, pos);
      assert pos == sc.e2 && path == sl.target;
      if IsValidPath(path) != CONTINUE {
        assert StartLineStatus(line) == BAD_REQUEST;
        return BAD_REQUEST;
      }

      pos := SkipSpaces(line, pos);
      assert pos == sc.p2;
      protocol, pos := ReadWord(line, pos);
      assert pos == sc.e3 && protocol == sl.version;

      pos := SkipSpaces(line, pos);
      assert pos == sl.tail;
      if At(line, pos) != '\0' {
        assert StartLineStatus(line) == BAD_REQUEST;
        return BAD_REQUEST;
      }
      if IsValidProtocol(protocol) != CONTINUE {
        assert StartLineStatus(line) == BAD_REQUEST;
        return BAD_REQUEST;
      }

      assert StartLineStatus(line) == CONTINUE;
      SetFlag(PARSED_SL);
      return CONTINUE;
    }

    /** parseHeader (src/Request.cpp:124-157), with a line lacking a colon
        refused with BAD_REQUEST.  The empty line ends the headers; a
        recognised name is stored under its lower-cased form unless already
        present; an unrecognised one leaves the map alone. */
    method ParseHeader(line: string, known: set<string>) returns (status: int)
      requires |line| < NPOS
      modifies this
      ensures status == HeaderStatus(line, known)
      ensures headers == HeadersAfter(old(headers), line, known)
      ensures parseFlags == if line == [] then old(parseFlags) | PARSED_HEADERS else old(parseFlags)
      ensures reqMethod == old(reqMethod) && path == old(path) && protocol == old(protocol)
    {
      if line == [] {
        SetFlag(PARSED_HEADERS);
        return CONTINUE;
      }
      var sepPos := Find(line, ':', 0);
      if sepPos == NPOS {
        return BAD_REQUEST;
      }
      var hline := line[sepPos := '\0'];
      var valStart := FindFirstNotOf(line, VALUE_BLANKS, sepPos);
      var valEnd := FindLastNotOf(line, VALUE_BLANKS, sepPos);
      var valLen := (valEnd - valStart) % SIZE_MOD;
      hline := ToLowerCase(hline);
      var h := Header(hline, sepPos, valStart, valLen);
      assert h == HeaderOf(line, sepPos);
      var name := hline[..sepPos];
      assert name == LowerAll(line[..sepPos]);
      if name !in known {
        return BAD_REQUEST;
      }
      if name !in headers {
        headers := headers[name := h];
      }
      return CONTINUE;
    }

    /** parseLine (src/Request.cpp:31-49): until PARSED_SL the line is a
        request line, then until PARSED_HEADERS a header line; after that
        nothing is parsed.  The step's status is only logged. */
    method ParseLine(line: string, known: set<string>)
      requires |line| < NPOS
      modifies this
      ensures old(parseFlags) & PARSED_SL == 0 ==>
                var sl := SplitStartLine(line);
                && reqMethod == sl.verb
                && path == (if MethodStatus(sl.verb) == CONTINUE then sl.target else old(path))
                && protocol == (if MethodStatus(sl.verb) == CONTINUE && IsValidPath(sl.target) == CONTINUE
                                then sl.version else old(protocol))
                && headers == old(headers)
                && parseFlags == if StartLineStatus(line) == CONTINUE then old(parseFlags) | PARSED_SL else old(parseFlags)
      ensures old(parseFlags) & PARSED_SL != 0 && old(parseFlags) & PARSED_HEADERS == 0 ==>
                && reqMethod == old(reqMethod) && path == old(path) && protocol == old(protocol)
                && headers == HeadersAfter(old(headers), line, known)
                && parseFlags == if line == [] then old(parseFlags) | PARSED_HEADERS else old(parseFlags)
      ensures old(parseFlags) & PARSED_SL != 0 && old(parseFlags) & PARSED_HEADERS != 0 ==>
                && reqMethod == old(reqMethod) && path == old(path) && protocol == old(protocol)
                && headers == old(headers) && parseFlags == old(parseFlags)
    {
      if parseFlags & PARSED_SL == 0 {
        var status := ParseStartLine(line);
      } else if parseFlags & PARSED_HEADERS == 0 {
        var status := ParseHeader(line, known);
      }
    }
  }
}
