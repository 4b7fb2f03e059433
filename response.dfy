/** Response assembly of src/Response.cpp: the GET/HEAD decision tree over
    the filesystem, the directory listing, the fixed DELETE and POST
    replies, and the bookkeeping of what is left to send.

    The filesystem, the MIME table, the error-page loader `findErr` and the
    CGI run are inputs (`Host`): the model states what the response is in
    terms of what they report. */
module Response {
  import opened Utils

  const FORBIDDEN: int := 403
  const NOT_FOUND: int := 404
  const INTERNAL_SERVER_ERROR: int := 500

  const CRLF: string := "\r\n"
  /** The status line and connection headers contentForGetHead starts from. */
  const HEAD_200: string := "HTTP/1.1 200 OK\r\nconnection: keep-alive\r\nkeep-Alive: timeout=55, max=1000\r\n"
  const HTML_TYPE: string := "content-type: text/html; charset=utf-8\r\n"
  const DELETED_BODY: string := "<html>\n  <body>\n    <h1>File deleted.</h1>\n  </body>\n</html>"
  const DELETED_REPLY: string := "HTTP/1.1 200 OK\r\ncontent-length: 60\r\n\r\n" + DELETED_BODY
  const NO_CONTENT_REPLY: string := "HTTP/1.1 204 No Content\r\n\r\n"
  /** The directory DELETE appends to the resolved path. */
  const DELETE_GUARD: string := "test_empty/1111"

  /** What a CGI run reports: the request status it leaves and its output. */
  datatype CgiReply = CgiReply(status: int, output: string)

  /** What the handlers consult: the filesystem, the extension-to-MIME
      table, the error-page loader and the CGI run on a script path with
      its (suffix, interpreter) handler. */
  datatype Host = Host(fs: FileSystem, mime: map<string, string>, findErr: int -> string,
                       runCgi: (string, (string, string)) -> CgiReply)

  /** The location a request resolved to.  `cgi` is the suffix-to-handler
      map in its iteration order (ascending keys). */
  datatype Location = Location(root: string, index: seq<string>, autoindex: bool,
                               cgi: seq<(string, string)>)

  /** to_string of a length: the size_t is converted to int first. */
  function Decimal(n: nat): string
  {
    IntToString(ToInt32(n))
  }

  /** The length a "content-length" header written with Decimal declares
      is the length itself, up to INT_MAX. */
  lemma DeclaredLength(n: nat)
    requires n <= INT_MAX
    ensures SignedValue(Decimal(n)) == n
  {
    IntToStringRoundTrip(n);
  }

  // ---------------------------------------------------------------------
  // Content type

  /** The index of the last '.' of `s`, if any. */
  function LastDot(s: string): (r: Option<nat>)
    ensures r.None? <==> '.' !in s
    ensures r.Some? ==> r.value < |s| && s[r.value] == '.' && '.' !in s[r.value + 1..]
  {
    if s == [] then None
    else if s[|s| - 1] == '.' then Some(|s| - 1)
    else
      var r := LastDot(s[..|s| - 1]);
      assert s == s[..|s| - 1] + [s[|s| - 1]];
      if r.Some? then
        assert s[r.value + 1..] == s[..|s| - 1][r.value + 1..] + [s[|s| - 1]];
        r
      else r
  }

  /** The header line for a MIME type; "text" gets the UTF-8 charset. */
  function TypeHeader(mime: string): string
  {
    "content-type: " + mime + (if mime == "text" then "; charset=utf-8" else "") + CRLF
  }

  /** The content-type line for a path: looked up by the text after its
      last '.', empty when there is no dot or the extension is unknown. */
  function ContentTypeLine(mime: map<string, string>, path: string): string
  {
    match LastDot(path)
    case None => ""
    case Some(i) => if path[i + 1..] in mime then TypeHeader(mime[path[i + 1..]]) else ""
  }

  /** GetContentType (src/Response.cpp:24-43): scans from the end for the
      last '.', looks up what follows it, and stops at that dot whether or
      not the lookup succeeds. */
  method GetContentType(mime: map<string, string>, resourcePath: string) returns (contType: string)
    ensures contType == ContentTypeLine(mime, resourcePath)
    ensures '.' !in resourcePath ==> contType == ""
  {
    contType := "";
    var i := |resourcePath|;
    while i > 0
      invariant 0 <= i <= |resourcePath|
      invariant '.' !in resourcePath[i..]
    {
      i := i - 1;
      if resourcePath[i] == '.' {
        var ext := resourcePath[i + 1..];
        ContentTypeAtDot(mime, resourcePath, i);
        contType := ExtensionHeader(mime, ext);
        return;
      }
      assert resourcePath[i..] == [resourcePath[i]] + resourcePath[i + 1..];
    }
    assert resourcePath[i..] == resourcePath;
  }

  /** The lookup GetContentType makes once it found the last dot: the
      header line of the extension's type, or nothing for an unknown one. */
  method ExtensionHeader(mime: map<string, string>, ext: string) returns (contType: string)
    ensures contType == if ext in mime then TypeHeader(mime[ext]) else ""
  {
    contType := "";
    if ext in mime {
      contType := "content-type: " + mime[ext];
      if mime[ext] == "text" {
        contType := contType + "; charset=utf-8";
      } else {
        assert contType + "" == contType;
      }
      contType := contType + CRLF;
    }
  }

  /** Once the last dot is found, only the text after it decides. */
  lemma ContentTypeAtDot(mime: map<string, string>, s: string, i: nat)
    requires i < |s| && s[i] == '.' && '.' !in s[i + 1..]
    ensures ContentTypeLine(mime, s) == if s[i + 1..] in mime then TypeHeader(mime[s[i + 1..]]) else ""
  {
    LastDotAt(s, i);
  }

  /** A dot with no dot after it is the last one. */
  lemma LastDotAt(s: string, i: nat)
    requires i < |s| && s[i] == '.' && '.' !in s[i + 1..]
    ensures LastDot(s) == Some(i)
  {
  }

  /** The last dot of name + "." + ext, ext without a dot, is the one
      before ext, whatever dots name holds. */
  lemma {:induction false} LastDotBeforeExtension(name: string, ext: string)
    requires '.' !in ext
    ensures LastDot(name + "." + ext) == Some(|name|)
    decreases |ext|
  {
    var p := name + "." + ext;
    if ext != [] {
      var e' := ext[..|ext| - 1];
      assert p[..|p| - 1] == name + "." + e';
      assert p[|p| - 1] == ext[|ext| - 1];
      LastDotBeforeExtension(name, e');
    }
  }

  /** The extension lookup of a name ending in "." + ext, ext without a
      dot: only ext decides. */
  lemma ContentTypeOfExtension(mime: map<string, string>, name: string, ext: string)
    requires '.' !in ext
    ensures ContentTypeLine(mime, name + "." + ext) == if ext in mime then TypeHeader(mime[ext]) else ""
  {
    LastDotBeforeExtension(name, ext);
    assert (name + "." + ext)[|name| + 1..] == ext;
  }

  // ---------------------------------------------------------------------
  // Paths and handlers

  /** resoursePathTaker (src/Response.cpp:146-158): the location root, then
      the request path, with a '/' between them unless the path already
      starts with one (the empty path reads its NUL and gets the '/'). */
  function ResourcePath(root: string, path: string): (r: string)
    ensures |r| > |root| && r[..|root|] == root && r[|root|] == '/'
    ensures EndsWith(r, path)
    ensures |r| == |root| + |path| + (if path != [] && path[0] == '/' then 0 else 1)
  {
    if At(path, 0) == '/' then root + path else root + "/" + path
  }

  /** The position of the first handler whose suffix ends `filepath`, or
      |cgi| when none does. */
  function CgiMatch(filepath: string, cgi: seq<(string, string)>): (r: nat)
    ensures r <= |cgi|
    ensures r < |cgi| ==> EndsWith(filepath, cgi[r].0)
    ensures forall k :: 0 <= k < r ==> !EndsWith(filepath, cgi[k].0)
  {
    if cgi == [] then 0
    else if EndsWith(filepath, cgi[0].0) then 0
    else 1 + CgiMatch(filepath, cgi[1..])
  }

  /** isCGI (src/Response.cpp:160-168): the first handler, in map order,
      whose suffix ends the path; |cgi| plays the end iterator. */
  method IsCgi(filepath: string, cgi: seq<(string, string)>) returns (it: nat)
    ensures it == CgiMatch(filepath, cgi)
    ensures it < |cgi| ==> EndsWith(filepath, cgi[it].0)
    ensures it == |cgi| <==> forall k :: 0 <= k < |cgi| ==> !EndsWith(filepath, cgi[k].0)
  {
    it := 0;
    while it < |cgi|
      invariant 0 <= it <= |cgi|
      invariant forall k :: 0 <= k < it ==> !EndsWith(filepath, cgi[k].0)
    {
      if EndsWith(filepath, cgi[it].0) {
        return;
      }
      it := it + 1;
    }
  }

  /** The position of the first index name that names a regular file under
      `dir`, or |index| when none does. */
  function FirstIndex(fs: FileSystem, dir: string, index: seq<string>): (r: nat)
    ensures r <= |index|
    ensures r < |index| ==> IsFile(fs, dir + index[r])
    ensures forall k :: 0 <= k < r ==> !IsFile(fs, dir + index[k])
  {
    if index == [] then 0
    else if IsFile(fs, dir + index[0]) then 0
    else 1 + FirstIndex(fs, dir, index[1..])
  }

  // ---------------------------------------------------------------------
  // The GET/HEAD decision

  /** What contentForGetHead serves. */
  datatype Choice = ServeFile(path: string) | ServeCgi(path: string, handler: nat)
                  | ServeListing(dir: string) | Refuse

  /** A regular file is run through its CGI handler when one matches its
      suffix, and sent as it is otherwise. */
  function Served(path: string, cgi: seq<(string, string)>): Choice
  {
    var h := CgiMatch(path, cgi);
    if h < |cgi| then ServeCgi(path, h) else ServeFile(path)
  }

  /** A directory path as contentForGetHead completes it: with a final '/'. */
  function DirPath(rp: string): string
  {
    if rp != [] && rp[|rp| - 1] != '/' then rp + "/" else rp
  }

  /** The decision of contentForGetHead (src/Response.cpp:170-228). */
  function Choose(fs: FileSystem, loc: Location, reqPath: string): Choice
  {
    var rp := ResourcePath(loc.root, reqPath);
    if IsDirectory(fs, rp) then
      var dir := DirPath(rp);
      var i := FirstIndex(fs, dir, loc.index);
      if i < |loc.index| then Served(dir + loc.index[i], loc.cgi)
      else if loc.autoindex && IsDirectory(fs, dir) then ServeListing(dir)
      else Refuse
    else if IsFile(fs, rp) then Served(rp, loc.cgi)
    else Refuse
  }

  /** The first index name that is a regular file is the one FirstIndex
      finds. */
  lemma {:induction false} FirstIndexIs(fs: FileSystem, dir: string, index: seq<string>, i: nat)
    requires i < |index| && IsFile(fs, dir + index[i])
    requires forall k :: 0 <= k < i ==> !IsFile(fs, dir + index[k])
    ensures FirstIndex(fs, dir, index) == i
  {
    if i > 0 {
      assert !IsFile(fs, dir + index[0]);
      assert forall k :: 0 <= k < i - 1 ==> index[1..][k] == index[k + 1];
      FirstIndexIs(fs, dir, index[1..], i - 1);
    }
  }

  /** For a directory, the first index name in configured order that is a
      regular file is served, through CGI when its suffix has a handler. */
  lemma IndexServedInOrder(fs: FileSystem, loc: Location, reqPath: string, i: nat)
    requires IsDirectory(fs, ResourcePath(loc.root, reqPath))
    requires i < |loc.index|
    requires IsFile(fs, DirPath(ResourcePath(loc.root, reqPath)) + loc.index[i])
    requires forall k :: 0 <= k < i ==> !IsFile(fs, DirPath(ResourcePath(loc.root, reqPath)) + loc.index[k])
    ensures var p := DirPath(ResourcePath(loc.root, reqPath)) + loc.index[i];
            Choose(fs, loc, reqPath) in {ServeFile(p), ServeCgi(p, CgiMatch(p, loc.cgi))}
  {
    FirstIndexIs(fs, DirPath(ResourcePath(loc.root, reqPath)), loc.index, i);
  }

  /** A listing is produced only with autoindex on, for a directory none of
      whose index names is a regular file; a refusal only when the path is
      neither a served file nor such a directory. */
  lemma ListingNeedsAutoindex(fs: FileSystem, loc: Location, reqPath: string)
    ensures Choose(fs, loc, reqPath).ServeListing? ==>
              var dir := DirPath(ResourcePath(loc.root, reqPath));
              && loc.autoindex && IsDirectory(fs, dir)
              && Choose(fs, loc, reqPath).dir == dir
              && forall k :: 0 <= k < |loc.index| ==> !IsFile(fs, dir + loc.index[k])
    ensures Choose(fs, loc, reqPath).Refuse? ==>
              var rp := ResourcePath(loc.root, reqPath);
              !IsFile(fs, rp) && (IsDirectory(fs, rp) ==> !loc.autoindex || !IsDirectory(fs, DirPath(rp)))
  {
  }

  /** A CGI run is chosen only for a regular file whose suffix matches the
      handler, and no earlier handler matched. */
  lemma CgiOnlyOnSuffix(fs: FileSystem, loc: Location, reqPath: string)
    ensures Choose(fs, loc, reqPath).ServeCgi? ==>
              var c := Choose(fs, loc, reqPath);
              && IsFile(fs, c.path) && c.handler < |loc.cgi|
              && EndsWith(c.path, loc.cgi[c.handler].0)
              && forall k :: 0 <= k < c.handler ==> !EndsWith(c.path, loc.cgi[k].0)
    ensures Choose(fs, loc, reqPath).ServeFile? ==>
              var c := Choose(fs, loc, reqPath);
              IsFile(fs, c.path) && forall k :: 0 <= k < |loc.cgi| ==> !EndsWith(c.path, loc.cgi[k].0)
  {
    var rp := ResourcePath(loc.root, reqPath);
    if IsDirectory(fs, rp) {
      var dir := DirPath(rp);
      var i := FirstIndex(fs, dir, loc.index);
      if i < |loc.index| {
        var p := dir + loc.index[i];
        assert IsFile(fs, p);
      }
    }
  }

  // ---------------------------------------------------------------------
  // Listing

  /** The '/' listToResponse puts between the request path and an entry
      name: it tests the last character of the body after appending the
      path, which is the path's own last character, or the opening quote
      when the path is empty. */
  function Slash(path: string): string
  {
    if path == [] || path[|path| - 1] != '/' then "/" else ""
  }

  /** Exactly one '/' joins the path and the name: one is inserted iff the
      path does not already end with it. */
  lemma SlashJoins(path: string)
    ensures var j := path + Slash(path);
            |j| >= 1 && j[|j| - 1] == '/' && j[..|path|] == path
    ensures Slash(path) == "" <==> (path != [] && path[|path| - 1] == '/')
  {
  }

  function ListingHead(path: string): string
  {
    LIST_OPEN + path + LIST_TITLE + path + LIST_RULE
  }

  const LIST_OPEN: string := "<!DOCTYPE html>\n<html>\n   <head>\n       <meta charset=\"UTF-8\">\n       <title> "
  const LIST_TITLE: string := " </title>\n   </head>\n<body>\n   <h1> Index on "
  const LIST_RULE: string := " </h1>\n   <p>\n   <hr>\n"

  /** The anchor of one directory entry. */
  function Anchor(path: string, name: string): string
  {
    HREF_OPEN + path + Slash(path) + name + HREF_CLOSE + name + ANCHOR_CLOSE
  }

  const HREF_OPEN: string := "   <a href=\""
  const HREF_CLOSE: string := "\">\n<br>"
  const ANCHOR_CLOSE: string := "</a>\n"

  /** The anchors of the entries, one per entry, in enumeration order. */
  function Anchors(path: string, names: seq<string>): string
  {
    if names == [] then "" else Anchors(path, names[..|names| - 1]) + Anchor(path, names[|names| - 1])
  }

  /** Listing more entries appends their anchors: the anchors of a listing
      are those of its parts, in order. */
  lemma {:induction false} AnchorsAppend(path: string, a: seq<string>, b: seq<string>)
    ensures Anchors(path, a + b) == Anchors(path, a) + Anchors(path, b)
    decreases |b|
  {
    if b == [] {
      assert a + b == a;
    } else {
      var b' := b[..|b| - 1];
      var last := b[|b| - 1];
      assert (a + b)[..|a + b| - 1] == a + b';
      assert (a + b)[|a + b| - 1] == last;
      assert Anchors(path, a + b) == Anchors(path, a + b') + Anchor(path, last);
      AnchorsAppend(path, a, b');
      assert Anchors(path, b) == Anchors(path, b') + Anchor(path, last);
      Assoc(Anchors(path, a), Anchors(path, b'), Anchor(path, last));
    }
  }

  lemma AnchorsStep(path: string, names: seq<string>, i: nat)
    requires i < |names|
    ensures Anchors(path, names[..i + 1]) == Anchors(path, names[..i]) + Anchor(path, names[i])
  {
    assert names[..i + 1][..i] == names[..i];
  }

  /** One pass of the loop of listToResponse (src/Response.cpp:129-136):
      the anchor of one entry, the '/' decided on the body's last
      character. */
  method AppendAnchor(body0: string, reqPath: string, name: string) returns (body: string)
    ensures body == body0 + Anchor(reqPath, name)
  {
    body := body0 + HREF_OPEN + reqPath;
    assert body[|body| - 1] == if reqPath == [] then '"' else reqPath[|reqPath| - 1];
    if body[|body| - 1] != '/' {
      body := body + "/";
    } else {
      assert body + "" == body;
    }
    assert body == body0 + HREF_OPEN + reqPath + Slash(reqPath);
    body := body + name;
    body := body + HREF_CLOSE;
    body := body + name;
    body := body + ANCHOR_CLOSE;
    Regroup(body0, HREF_OPEN, reqPath, Slash(reqPath), name, HREF_CLOSE, name, ANCHOR_CLOSE);
  }

  /** Appending seven pieces one by one appends their concatenation. */
  lemma Regroup(x: string, a: string, b: string, c: string, d: string, e: string, f: string, g: string)
    ensures x + a + b + c + d + e + f + g == x + (a + b + c + d + e + f + g)
  {
    Assoc(x, a, b);
    Assoc(x, a + b, c);
    Assoc(x, a + b + c, d);
    Assoc(x, a + b + c + d, e);
    Assoc(x, a + b + c + d + e, f);
    Assoc(x, a + b + c + d + e + f, g);
  }

  /** The loop of listToResponse (src/Response.cpp:121-138): one anchor per
      entry, in enumeration order. */
  method AppendAnchors(body0: string, reqPath: string, names: seq<string>) returns (body: string)
    ensures body == body0 + Anchors(reqPath, names)
  {
    body := body0;
    var i := 0;
    while i < |names|
      invariant 0 <= i <= |names|
      invariant body == body0 + Anchors(reqPath, names[..i])
    {
      body := AppendAnchor(body, reqPath, names[i]);
      AnchorsStep(reqPath, names, i);
      Assoc(body0, Anchors(reqPath, names[..i]), Anchor(reqPath, names[i]));
      i := i + 1;
    }
    assert names[..i] == names;
  }

  /** The listing body: head, one anchor per entry, closing tags. */
  function ListingBody(path: string, names: seq<string>): string
  {
    ListingHead(path) + Anchors(path, names) + "</body></html>"
  }

  /** The entries of the directory at `dir`, if it can be opened. */
  function Entries(fs: FileSystem, dir: string): Option<seq<string>>
  {
    if IsDirectory(fs, dir) then fs[dir].entries else None
  }

  /** The contents of the regular file at `p`, if it can be opened. */
  function FileContent(fs: FileSystem, p: string): Option<string>
  {
    if IsFile(fs, p) then fs[p].content else None
  }

  /** The response text and returned body for a choice, starting from the
      head contentForGetHead writes. */
  function Reply(host: Host, loc: Location, reqPath: string, c: Choice): (string, string)
  {
    match c
    case Refuse => (host.findErr(FORBIDDEN), "")
    case ServeFile(p) =>
      (match FileContent(host.fs, p)
       case None => (host.findErr(FORBIDDEN), "")
       case Some(body) =>
         if body == [] then (host.findErr(INTERNAL_SERVER_ERROR), "") else
         (HEAD_200 + ContentTypeLine(host.mime, p) + "content-length: " + Decimal(|body|) + CRLF + CRLF, body))
    case ServeCgi(p, h) =>
      if h < |loc.cgi| then
        var out := host.runCgi(p, loc.cgi[h]);
        if out.status >= 400 then (host.findErr(out.status), "")
        else (HEAD_200 + "Content-Length: " + Decimal(|out.output|) + CRLF + CRLF, out.output)
      else (host.findErr(FORBIDDEN), "")
    case ServeListing(dir) =>
      (match Entries(host.fs, dir)
       case None => (host.findErr(INTERNAL_SERVER_ERROR), "")
       case Some(names) =>
         var body := ListingBody(reqPath, names);
         (HEAD_200 + HTML_TYPE + "content-length: " + Decimal(|body|) + CRLF + CRLF, body))
  }

  /** DELETE's decision: 404 when nothing exists at the path, 403 for a
      directory, the fixed 200 reply otherwise. */
  function DeleteReply(host: Host, path: string): string
  {
    if !ResourceExists(host.fs, path) then host.findErr(NOT_FOUND)
    else if IsDirectory(host.fs, path) then host.findErr(FORBIDDEN)
    else DELETED_REPLY
  }

  /** The fixed DELETE reply declares exactly the length of its body. */
  lemma DeletedReplyLength()
    ensures |DELETED_BODY| == 60
    ensures DELETED_REPLY == "HTTP/1.1 200 OK\r\ncontent-length: " + Decimal(|DELETED_BODY|) + CRLF + CRLF + DELETED_BODY
  {
    assert Decimal(60) == "60";
  }

  // ---------------------------------------------------------------------
  // The response object

  class Response {
    var res: string
    var resLeftToSend: string
    var formed: bool

    /** Response() (src/Response.cpp:4-6): not formed, nothing to send. */
    constructor()
      ensures !formed && res == [] && resLeftToSend == []
    {
      formed := false;
      res, resLeftToSend := [], [];
    }

    /** clear (src/Response.cpp:10-14): back to the fresh state. */
    method Clear()
      modifies this
      ensures !formed && res == [] && resLeftToSend == []
    {
      res, resLeftToSend := [], [];
      formed := false;
    }

    function IsFormed(): bool
      reads this
    {
      formed
    }

    /** setFormed (src/Response.cpp:20-22): IsFormed reports what was set. */
    method SetFormed(f: bool)
      modifies this
      ensures IsFormed() == f
      ensures res == old(res) && resLeftToSend == old(resLeftToSend)
    {
      formed := f;
    }

    /** fileToResponse (src/Response.cpp:72-95): a file that cannot be opened
        replaces the response with the 403 page.  Streaming an empty file
        into the buffer inserts nothing, which sets the buffer's failbit, so
        tellp reports -1 and the response becomes the 500 page.  Otherwise
        the length is declared and the contents returned. */
    method FileToResponse(host: Host, p: string) returns (body: string)
      modifies this
      ensures FileContent(host.fs, p).None? ==> res == host.findErr(FORBIDDEN) && body == ""
      ensures FileContent(host.fs, p) == Some("") ==> res == host.findErr(INTERNAL_SERVER_ERROR) && body == ""
      ensures FileContent(host.fs, p).Some? && FileContent(host.fs, p).value != [] ==>
                body == FileContent(host.fs, p).value
                && res == old(res) + "content-length: " + Decimal(|body|) + CRLF + CRLF
      ensures resLeftToSend == old(resLeftToSend) && formed == old(formed)
    {
      var content := FileContent(host.fs, p);
      if content.None? {
        res := host.findErr(FORBIDDEN);
        return "";
      }
      body := content.value;
      if body == [] {
        res := host.findErr(INTERNAL_SERVER_ERROR);
        return "";
      }
      res := res + "content-length: " + Decimal(|body|) + CRLF + CRLF;
    }

    /** doCGI (src/Response.cpp:45-56): a run leaving an error status
        replaces the response with that error page; otherwise the output's
        length is declared and the output returned. */
    method DoCgi(host: Host, p: string, handler: (string, string)) returns (body: string)
      modifies this
      ensures var out := host.runCgi(p, handler);
              && (out.status >= 400 ==> res == host.findErr(out.status) && body == "")
              && (out.status < 400 ==>
                    body == out.output
                    && res == old(res) + "Content-Length: " + Decimal(|out.output|) + CRLF + CRLF)
      ensures resLeftToSend == old(resLeftToSend) && formed == old(formed)
    {
      var out := host.runCgi(p, handler);
      if out.status >= 400 {
        res := host.findErr(out.status);
        return "";
      }
      res := res + "Content-Length: ";
      res := res + Decimal(|out.output|) + CRLF + CRLF;
      body := out.output;
    }

    /** listToResponse (src/Response.cpp:97-144): one anchor per entry of
        the directory, in enumeration order, and a content-length equal to
        the body's length; a directory that cannot be opened gives the 500
        page. */
    method ListToResponse(host: Host, dir: string, reqPath: string) returns (body: string)
      modifies this
      ensures Entries(host.fs, dir).None? ==> res == host.findErr(INTERNAL_SERVER_ERROR) && body == ""
      ensures Entries(host.fs, dir).Some? ==>
                body == ListingBody(reqPath, Entries(host.fs, dir).value)
                && res == old(res) + "content-length: " + Decimal(|body|) + CRLF + CRLF
      ensures resLeftToSend == old(resLeftToSend) && formed == old(formed)
    {
      body := ListingHead(reqPath);
      var entries := Entries(host.fs, dir);
      if entries.None? {
        res := host.findErr(INTERNAL_SERVER_ERROR);
        return "";
      }
      body := AppendAnchors(body, reqPath, entries.value);
      body := body + "</body></html>";
      res := res + "content-length: " + Decimal(|body|) + CRLF + CRLF;
    }

    /** contentForGetHead (src/Response.cpp:170-228): starts the response
        with the 200 head and serves what Choose picks — an index file or
        the file itself (through CGI when its suffix has a handler), a
        listing, or the 403 page. */
    method ContentForGetHead(host: Host, loc: Location, reqPath: string) returns (body: string)
      modifies this
      ensures (res, body) == Reply(host, loc, reqPath, Choose(host.fs, loc, reqPath))
      ensures resLeftToSend == old(resLeftToSend) && formed == old(formed)
    {
      var rp := ResourcePath(loc.root, reqPath);
      res := HEAD_200;
      if IsDirectory(host.fs, rp) {
        body := ServeDirectory(host, loc, reqPath, rp);
      } else if IsFile(host.fs, rp) {
        body := ServeFound(host, loc, rp);
      } else {
        res := host.findErr(FORBIDDEN);
        return "";
      }
    }

    /** The directory branch of contentForGetHead (src/Response.cpp:184-202):
        completes the path with '/', serves the first index name that is a
        regular file, else lists the directory when autoindex is on, else
        gives the 403 page. */
    method ServeDirectory(host: Host, loc: Location, reqPath: string, rp0: string) returns (body: string)
      requires rp0 == ResourcePath(loc.root, reqPath) && IsDirectory(host.fs, rp0)
      requires res == HEAD_200
      modifies this
      ensures (res, body) == Reply(host, loc, reqPath, Choose(host.fs, loc, reqPath))
      ensures resLeftToSend == old(resLeftToSend) && formed == old(formed)
    {
      var rp := rp0;
      if rp[|rp| - 1] != '/' {
        rp := rp + "/";
      }
      assert rp == DirPath(rp0);
      var i := 0;
      while i < |loc.index|
        invariant 0 <= i <= |loc.index|
        invariant forall k :: 0 <= k < i ==> !IsFile(host.fs, rp + loc.index[k])
        invariant res == HEAD_200 && resLeftToSend == old(resLeftToSend) && formed == old(formed)
      {
        var path := rp + loc.index[i];
        if IsFile(host.fs, path) {
          FirstIndexIs(host.fs, rp, loc.index, i);
          assert Choose(host.fs, loc, reqPath) == Served(path, loc.cgi);
          body := ServeFound(host, loc, path);
          return;
        }
        i := i + 1;
      }
      assert FirstIndex(host.fs, rp, loc.index) == |loc.index|;
      body := ListOrRefuse(host, loc, rp, reqPath);
    }

    /** The end of contentForGetHead (src/Response.cpp:214-227), reached
        for a directory without an index file: the listing when autoindex
        is on, the 403 page otherwise. */
    method ListOrRefuse(host: Host, loc: Location, dir: string, reqPath: string) returns (body: string)
      requires res == HEAD_200
      modifies this
      ensures (res, body) == Reply(host, loc, reqPath,
                                   if loc.autoindex && IsDirectory(host.fs, dir) then ServeListing(dir) else Refuse)
      ensures resLeftToSend == old(resLeftToSend) && formed == old(formed)
    {
      if loc.autoindex && IsDirectory(host.fs, dir) {
        res := res + HTML_TYPE;
        body := ListToResponse(host, dir, reqPath);
        return;
      }
      res := host.findErr(FORBIDDEN);
      return "";
    }

    /** The two identical branches of contentForGetHead that serve a found
        regular file (src/Response.cpp:196-201 and 206-211). */
    method ServeFound(host: Host, loc: Location, path: string) returns (body: string)
      requires IsFile(host.fs, path) && res == HEAD_200
      modifies this
      ensures (res, body) == Reply(host, loc, "", Served(path, loc.cgi))
      ensures resLeftToSend == old(resLeftToSend) && formed == old(formed)
    {
      var it := IsCgi(path, loc.cgi);
      if it < |loc.cgi| {
        body := DoCgi(host, path, loc.cgi[it]);
        return;
      }
      var ct := GetContentType(host.mime, path);
      res := res + ct;
      body := FileToResponse(host, path);
    }

    /** GETmethod (src/Response.cpp:230-232): the head, then the body. */
    method Get(host: Host, loc: Location, reqPath: string)
      modifies this
      ensures var r := Reply(host, loc, reqPath, Choose(host.fs, loc, reqPath));
              res == r.0 + r.1
      ensures resLeftToSend == old(resLeftToSend) && formed == old(formed)
    {
      var body := ContentForGetHead(host, loc, reqPath);
      res := res + body;
    }

    /** HEADmethod (src/Response.cpp:234-236): the same head as GET, no body. */
    method Head(host: Host, loc: Location, reqPath: string)
      modifies this
      ensures res == Reply(host, loc, reqPath, Choose(host.fs, loc, reqPath)).0
      ensures resLeftToSend == old(resLeftToSend) && formed == old(formed)
    {
      var _ := ContentForGetHead(host, loc, reqPath);
    }

    /** DELETEmethod (src/Response.cpp:238-261): decides on the resolved
        path with "test_empty/1111" appended; nothing is deleted. */
    method Delete(host: Host, loc: Location, reqPath: string)
      modifies this
      ensures res == DeleteReply(host, ResourcePath(loc.root, reqPath) + DELETE_GUARD)
      ensures resLeftToSend == old(resLeftToSend) && formed == old(formed)
    {
      var rp := ResourcePath(loc.root, reqPath);
      rp := rp + DELETE_GUARD;
      if !ResourceExists(host.fs, rp) {
        res := host.findErr(NOT_FOUND);
        return;
      } else if IsDirectory(host.fs, rp) {
        res := host.findErr(FORBIDDEN);
        return;
      }
      res := DELETED_REPLY;
    }

    /** POSTmethod (src/Response.cpp:263-271): always the 204 reply. */
    method Post()
      modifies this
      ensures res == NO_CONTENT_REPLY
      ensures resLeftToSend == old(resLeftToSend) && formed == old(formed)
    {
      res := NO_CONTENT_REPLY;
    }

    function GetLeftToSendSize(): nat
      reads this
    {
      |resLeftToSend|
    }

    /** SetLeftToSend (src/Response.cpp:285-287): what remains after the
        first n bytes were sent; substr throws past the end, hence the
        requires. */
    method SetLeftToSend(n: nat)
      requires n <= |res|
      modifies this
      ensures res == old(res) && resLeftToSend == res[n..]
      ensures GetLeftToSendSize() == |res| - n
      ensures res[..n] + resLeftToSend == res
    {
      resLeftToSend := res[n..];
    }
  }
}
