# A verified model of the request path of levensta/webserver

This project models, in Dafny, the request-side core of a small C++98
HTTP/1.1 server. It covers the following parts.

- **The line reservoir** (`ReadSock`). Each socket descriptor owns a
  string of received but unconsumed bytes. Chunks from `recv` are appended
  to it, and lines are cut off its front at the first CRLF, the line
  terminator of section 2.2 of RFC 9112.
- **The request parser** (`Request`). A state machine driven by three bit
  flags reads the request line (section 3 of RFC 9112), then header
  lines, then the body.
  - The method must be one of nine, the target must begin with `/`, and
    the version must be exactly `HTTP/1.1`.
  - Header names are lower-cased, since section 5.1 of RFC 9110 makes
    them case-insensitive. They are checked against a closed vocabulary,
    and the first occurrence of a name is kept.
  - The text helpers it relies on (`Utils`) are modelled too: `getWord`,
    `skipSpaces`, `trim`, `toLowerCase` and `to_string`.
- **Response assembly** (`Response`), stated over an abstract filesystem:
  - the MIME lookup by the text after the last dot;
  - joining the location root and the request path;
  - picking a CGI handler by file suffix;
  - the GET/HEAD decision: index files in configured order, then the
    autoindex listing, else 403;
  - the directory-listing body and its declared length;
  - the fixed DELETE and POST replies;
  - what is left to send.
- **The CGI environment block** (`Cgi`), with the meta-variables of
  section 4.1 of RFC 3875:
  - 18 fixed 1024-character `KEY=value` buffers and a null terminator;
  - the bounded in-place rewrite of a value (`setValue`);
  - the argument vector for compiled and interpreted scripts;
  - how the child's exit is classified, and how its output is collected.
- **Configuration validators** (`Config`):
  - keyword-context checks;
  - the subset check for allowed methods;
  - port and error-code ranges;
  - redirect and alias/root exclusion checks;
  - `getArray`;
  - the trailing-slash normalisation of a location root.

Each C++ routine that changes state step by step is an imperative Dafny
`method`. Its postcondition ties the new state to a specification
function, and lemmas prove what the source promises about that function.
Objects whose fields the source updates in place are classes:

- `ReadSock.ReadSock`, which holds `_rems`;
- `Request.Request`;
- `Response.Response`;
- `Cgi.Cgi`.

The CGI environment is an array of character arrays, as in C.

Several C++ details are modelled explicitly:

- `std::string::npos` is `2^64 - 1`, and size_t arithmetic wraps modulo
  2^64 where the code relies on it (`rtrim` of an all-blank string,
  `strncat`'s bound).
- `line[line.size()]` reads the terminating NUL.
- `to_string` renders a 32-bit `int`.

Some of the code's behaviour is reproduced as it is written:

- **Header values.** `parseHeader` searches for the value's bounds
  starting at the colon itself. The colon is not a blank, so the stored
  value is always empty.
- **The read loop of `exec`.** It keeps a read's bytes only up to their
  first NUL, and it stops at the first empty or failed read.
- **Empty files.** `fileToResponse` of an empty file answers with the 500
  page. Streaming an empty file inserts nothing and sets the buffer's
  failbit, so `tellp` reports -1.

The server's design describes behaviour this code does not have. The
model follows the code:

- A directory requested without a trailing slash is not redirected. The
  slash is appended to the resolved path, and the index search goes on.
- A file is read whole and sent with a content-length, not streamed in
  chunks.
- An exec failure, a non-zero exit, a signal or a stop makes `exec`
  return 0. Its output is not split into headers and body, and it is not
  mapped to 502 here.
- A version other than HTTP/1.1 is refused with 400, not 505.

## Model

| member | source | states |
|---|---|---|
| Utils.UpToNul | src/ReadSock.cpp:21-22 | the C-string view of a buffer is the prefix before its first NUL, holds no NUL, and is followed by a NUL when shorter |
| Utils.UpToNulAt | src/ReadSock.cpp:21-22 | a NUL at index k with none before it cuts the C string at exactly k |
| Utils.UpToNulBeforeNul | src/ReadSock.cpp:21-22 | a NUL written right after received bytes does not change their C string |
| Utils.FindFrom | src/Utils.cpp:26 | the search stops at the first delimiter at or after `from`, every character skipped is not the delimiter, or it reaches the end |
| Utils.SkipFrom | src/Utils.cpp:33-36 | the skip stops at the first non-space, and every character skipped is a space |
| Utils.FindFromConcat | src/Utils.cpp:26 | a prefix without the delimiter leaves the search to the rest of the string |
| Utils.Find | src/Utils.cpp:26 | `find` returns npos iff the character does not occur from `from` on, otherwise the index of its first occurrence |
| Utils.GetWord | src/Utils.cpp:24-31 | the word runs from `pos` to the first delimiter or the end and holds no delimiter; `pos` becomes the delimiter's index, or npos iff no delimiter follows |
| Utils.SkipSpaces | src/Utils.cpp:33-36 | `pos` advances to the first non-space at or after it, or to the terminating NUL |
| Utils.FindLastNotOf | src/Utils.cpp:4 | npos iff every character up to the bound is in the set; otherwise the last index not in the set, with only set characters after it |
| Utils.FindFirstNotOf | src/Utils.cpp:9 | npos iff every character from `from` on is in the set; otherwise the first index not in the set |
| Utils.Trim | src/Utils.cpp:3-15 | the result is a contiguous piece of the input, only characters of the set were removed on either side, it neither begins nor ends with one, and it is empty iff every character is in the set (the npos + 1 wrap) |
| Utils.Lower | src/Utils.cpp:20 | tolower yields no upper-case letter and leaves every other character alone |
| Utils.ToLowerCase | src/Utils.cpp:17-22 | the length is kept, each character is lower-cased in place, and a second pass changes nothing |
| Utils.ToInt32 | src/Response.cpp:92 | a long/size_t passed as int keeps its value within the int range and always lands in it |
| Utils.NatToString | src/Utils.cpp:40-44 | the decimal digits, with no leading zero, one digit exactly below 10 |
| Utils.NatToStringLength | src/Utils.cpp:40-44 | a number below 10^k takes at most k digits |
| Utils.IntToStringShort | src/Utils.cpp:40-44 | `%d` of an int fits in 11 characters and holds no NUL, so the 25-byte buffer suffices |
| Utils.NatToStringRoundTrip | src/Utils.cpp:40-44 | reading the digits back gives the number |
| Utils.IntToStringRoundTrip | src/Utils.cpp:40-44 | `%d` round-trips every int, with a leading minus exactly for negatives |
| ReadSock.NoCrlfTail | src/ReadSock.cpp:46 | a string holds no CRLF iff none starts at its head and its tail holds none |
| ReadSock.CutLine | src/ReadSock.cpp:46-54 | the reservoir is the line, CRLF, then the rest, with no CRLF in the line; None iff the reservoir holds no CRLF |
| ReadSock.CutLineOfFramed | src/ReadSock.cpp:46-54 | a CRLF-free line framed by CRLF is cut off exactly, leaving the rest |
| ReadSock.DrainFramed | src/ReadSock.cpp:46-54 | a reservoir of framed lines and an unterminated tail yields exactly those lines in order and keeps the tail |
| ReadSock.NulIndex | src/ReadSock.cpp:8-21 | the corrected NUL index lies inside the MAX_PACKET_SIZE + 1 buffer, right after the bytes |
| ReadSock.NulIndexAsWritten | src/ReadSock.cpp:21 | as written, the NUL goes one past the corrected index, so it lands outside the buffer exactly when the packet is full |
| ReadSock.NulWriteOverflows | src/ReadSock.cpp:21 | as written, a full packet writes its NUL one past the buffer |
| ReadSock.PermAfterRead | src/ReadSock.cpp:41-43 | the corrected update withdraws the read permission and keeps every other bit |
| ReadSock.PermAfterReadAsWritten | src/ReadSock.cpp:42 | as written, the update keeps the read bit as it was and sets every other bit |
| ReadSock.ReadPermNeverCleared | src/ReadSock.cpp:42 | as written, or-assigning `~PERM_READ` to the permissions keeps the read bit and sets all others |
| ReadSock.FindCrlf | src/ReadSock.cpp:46 | the first CRLF of the reservoir, or None iff it holds none |
| ReadSock.ReadSock.ReadSocket | src/ReadSock.cpp:7-25 | a failed recv gives RECV_END_NB and changes nothing; a shutdown gives RECV_END and erases the reservoir; received bytes give RECV_DONE and are appended up to their first NUL |
| ReadSock.ReadSock.Getline | src/ReadSock.cpp:27-55 | a negative descriptor gives INVALID_FD and changes nothing; a shutdown read returns RECV_END; otherwise LINE_NOT_FOUND iff no CRLF (reservoir unchanged), else old reservoir = line + CRLF + new reservoir with no CRLF in the line; other descriptors' reservoirs are untouched |
| ReadSock.ReadSock.TakeLine | src/ReadSock.cpp:46-54 | the reservoir of fd loses exactly its first CRLF-terminated line, which is returned, or stays as it is when it holds no CRLF |
| Request.IsValidMethod | src/Request.cpp:86-96 | CONTINUE iff the method is one of the nine, NOT_IMPLEMENTED otherwise |
| Request.IsValidPath | src/Request.cpp:98-103 | CONTINUE iff the path is non-empty and starts with '/', BAD_REQUEST otherwise (the empty path included) |
| Request.IsValidProtocol | src/Request.cpp:105-110 | CONTINUE iff the token is exactly HTTP/1.1, HTTP_VERSION_NOT_SUPPORTED otherwise |
| Request.ScanStartLine | src/Request.cpp:51-70 | the scan positions of the request line are ordered and within it |
| Request.SplitStartLine | src/Request.cpp:51-70 | the three words hold no blank, and the scan stops at a non-blank or the end |
| Request.ReadWord | src/Request.cpp:54 | one getWord in parseStartLine yields the text up to the next blank and resumes there |
| Request.ScanThreeWords | src/Request.cpp:51-70 | three blank-free words separated by runs of blanks are scanned word by word to the end of the line |
| Request.SplitThreeWords | src/Request.cpp:51-70 | such a line splits into exactly its three words |
| Request.WellFormedStartLine | src/Request.cpp:51-84 | "METHOD /target HTTP/1.1" with a known method is accepted |
| Request.OldVersionBadRequest | src/Request.cpp:76-80 | an HTTP/1.0 request line is refused with BAD_REQUEST, not 505 |
| Request.UnknownMethodNotImplemented | src/Request.cpp:54-58 | a method outside the nine gives NOT_IMPLEMENTED whatever follows |
| Request.StartLineAsWritten | src/Request.cpp:51-84 | as written, a line whose words reach its end overruns to `line[npos]`; otherwise the only refusal is BAD_REQUEST for text after the protocol, and every other line is accepted |
| Request.WellFormedLineOverrunsAsWritten | src/Request.cpp:67-71 | as written, a well-formed line without trailing blanks reads `line[npos]` |
| Request.BadLineAcceptedAsWritten | src/Request.cpp:55-80 | as written, the `!isValidX()` tests never refuse: an unknown method is accepted where the intended parse gives NOT_IMPLEMENTED |
| Request.FirstHeaderWins | src/Request.cpp:154 | of two header lines with the same lower-cased name the first is kept |
| Request.ColonFound | src/Request.cpp:134 | a line with a colon has its first colon inside it |
| Request.HeaderAsWritten | src/Request.cpp:124-157 | as written, a non-empty line writes out of range iff it holds no colon; every other line gets the status of the intended parse |
| Request.HeaderWithoutColonAsWritten | src/Request.cpp:134-135 | as written, a header line without colon writes `line[npos]`; the corrected parse refuses it with BAD_REQUEST |
| Request.RaiseBits | src/Request.cpp:112-114 | raising a flag sets its bits and keeps every other bit |
| Request.ClearBits | src/Request.cpp:116-118 | clearing a flag clears its bits and keeps every other bit |
| Request.Request.constructor | src/Request.cpp:7 | a fresh request has no parse flag set and no header |
| Request.Request.SetFlag | src/Request.cpp:112-114 | the flags become old flags OR flag; nothing else changes |
| Request.Request.RemoveFlag | src/Request.cpp:116-118 | the flags become old flags AND NOT flag; nothing else changes |
| Request.Request.ParseStartLine | src/Request.cpp:51-84 | checks method (501), target (400), trailing characters (400), protocol (400) in that order; stores each word as far as the checks got; raises PARSED_SL exactly on CONTINUE |
| Request.Request.ParseHeader | src/Request.cpp:124-157 | the empty line raises PARSED_HEADERS; an unrecognised or colon-less line gives BAD_REQUEST and leaves the headers alone; a recognised name is stored only if absent |
| Request.Request.ParseLine | src/Request.cpp:31-49 | until PARSED_SL the line is a request line: PARSED_SL is raised iff parseStartLine accepts it, the method, and the target and protocol as far as the checks got are those of parseStartLine, and the headers stay as they were; then header lines until PARSED_HEADERS, leaving method, target and protocol alone; after that nothing changes |
| Response.DeclaredLength | src/Response.cpp:92 | a declared content-length reads back as the body length up to INT_MAX |
| Response.LastDot | src/Response.cpp:27-28 | the index of the last '.', with no dot after it; None iff the path has no dot |
| Response.GetContentType | src/Response.cpp:24-43 | the header line of the type of the text after the last dot; empty without a dot or for an unknown extension |
| Response.ExtensionHeader | src/Response.cpp:29-37 | "content-type: " + type, "; charset=utf-8" only for text, CRLF; empty for an unknown extension |
| Response.ContentTypeAtDot | src/Response.cpp:28-39 | once the last dot is found only the text after it decides |
| Response.LastDotAt | src/Response.cpp:27-28 | a dot with no dot after it is the last one |
| Response.LastDotBeforeExtension | src/Response.cpp:27-28 | in name + "." + ext the last dot precedes ext, whatever dots the name holds |
| Response.ContentTypeOfExtension | src/Response.cpp:24-43 | the type of name + "." + ext depends only on ext |
| Response.ResourcePath | src/Response.cpp:146-158 | root, then '/' unless the path starts with one, then the path |
| Response.CgiMatch | src/Response.cpp:160-168 | the first handler whose suffix ends the path, with no earlier one matching, or the end |
| Response.IsCgi | src/Response.cpp:160-168 | isCGI returns the first matching handler, or the end iff none matches |
| Response.FirstIndex | src/Response.cpp:190-203 | the first index name that is a regular file, none before it being one, or past the end |
| Response.FirstIndexIs | src/Response.cpp:190-203 | an index name that is a file with none before it is the one chosen |
| Response.IndexServedInOrder | src/Response.cpp:184-202 | for a directory the first index file in configured order is served, through CGI when its suffix matches |
| Response.ListingNeedsAutoindex | src/Response.cpp:212-227 | a listing needs autoindex and a directory without index file; a refusal only for what is neither a file nor such a directory |
| Response.CgiOnlyOnSuffix | src/Response.cpp:196-211 | CGI is chosen only for a regular file with a matching suffix and no earlier match; a plain file only when no handler matches |
| Response.SlashJoins | src/Response.cpp:129-132 | exactly one '/' joins path and name: inserted iff the path does not end with one |
| Response.AnchorsAppend | src/Response.cpp:121-138 | the anchors of a listing are those of its parts, in order |
| Response.AnchorsStep | src/Response.cpp:121-138 | one more entry appends its anchor |
| Response.AppendAnchor | src/Response.cpp:129-136 | one loop pass appends exactly the entry's anchor |
| Response.Regroup | src/Response.cpp:129-136 | appending the pieces one by one appends their concatenation |
| Response.AppendAnchors | src/Response.cpp:121-138 | the loop appends one anchor per entry in enumeration order |
| Response.DeletedReplyLength | src/Response.cpp:253-260 | the fixed DELETE body is 60 characters, the length its header declares |
| Response.Response.constructor | src/Response.cpp:4-6 | a fresh response is not formed and has nothing to send |
| Response.Response.Clear | src/Response.cpp:10-14 | back to not formed with both buffers empty |
| Response.Response.SetFormed | src/Response.cpp:20-22 | IsFormed reports what was set; the buffers are kept |
| Response.Response.FileToResponse | src/Response.cpp:72-95 | an unopenable file gives the 403 page, an empty one the 500 page, otherwise its length is declared and its contents returned |
| Response.Response.DoCgi | src/Response.cpp:45-56 | an error status (>= 400) replaces the response with its page, otherwise the output length is declared and the output returned |
| Response.Response.ListToResponse | src/Response.cpp:97-144 | an unopenable directory gives the 500 page; otherwise the body is the listing of its entries in order and the declared length is the body's |
| Response.Response.ContentForGetHead | src/Response.cpp:170-228 | the response and body are the reply for the choice of index file, file, CGI, listing or 403 |
| Response.Response.ServeDirectory | src/Response.cpp:184-202 | the directory branch: first index file, else listing or 403 |
| Response.Response.ListOrRefuse | src/Response.cpp:217-227 | listing with autoindex on a directory, 403 otherwise |
| Response.Response.ServeFound | src/Response.cpp:196-201 | a found file goes to its CGI handler, or gets its content type and contents |
| Response.Response.Get | src/Response.cpp:230-232 | GET appends the resolved body to the head |
| Response.Response.Head | src/Response.cpp:234-236 | HEAD gives the same head as GET and no body |
| Response.Response.Delete | src/Response.cpp:238-261 | 404 when nothing exists at the guarded path, 403 for a directory, the fixed 200 reply otherwise |
| Response.Response.Post | src/Response.cpp:263-271 | POST always gives the 204 reply |
| Response.Response.SetLeftToSend | src/Response.cpp:285-290 | what is left is the response after its first n bytes, and its size is the rest |
| Cgi.Take | src/CGI.cpp:49 | at most n characters, a prefix of the string, all of it when it fits |
| Cgi.RoomFits | src/CGI.cpp:49 | within the buffer the strncat bound does not wrap |
| Cgi.SetValueKeepsKey | src/CGI.cpp:42-50 | an entry with '=' keeps everything up to the first '=' and stays within 1023 characters, followed by the value cut to fit |
| Cgi.SetValueTwice | src/CGI.cpp:42-50 | two setValue calls leave what the second alone would |
| Cgi.SetValueOnKey | src/CGI.cpp:42-50 | a fresh KEY= entry gets the value's C string cut to fit 1023 characters |
| Cgi.SetValueOnKeyWhole | src/CGI.cpp:42-50 | a NUL-free value that fits is taken whole |
| Cgi.CStrInside | src/CGI.cpp:44 | the C string of a terminated buffer ends at a NUL inside it |
| Cgi.StrChr | src/CGI.cpp:44 | the index of the first '=' of the C string, or its NUL |
| Cgi.StrNCat | src/CGI.cpp:49 | appends at most n characters of the value's C string, then a NUL |
| Cgi.Appended | src/CGI.cpp:49 | a NUL after two NUL-free pieces ends the C string there |
| Cgi.StrLen | src/CGI.cpp:49 | the length of the buffer's C string |
| Cgi.SetValue | src/CGI.cpp:42-50 | the entry becomes unchanged without '=', otherwise key= followed by the value cut to 1023 characters in total |
| Cgi.StrCpy | src/CGI.cpp:325-342 | the buffer holds the copied string |
| Cgi.Values | src/CGI.cpp:87-143 | setEnv has exactly one value per slot |
| Cgi.AllocBlock | src/CGI.cpp:319-323 | 18 distinct fresh 1024-character buffers and a null at index 18 |
| Cgi.InitEnv | src/CGI.cpp:317-346 | the 18 entries PATH_INFO= ... REDIRECT_STATUS= in that order, then null |
| Cgi.FillSlot | src/CGI.cpp:325-342 | one strcpy fills its slot and leaves the others alone |
| Cgi.SetEnv | src/CGI.cpp:87-143 | every slot gets setValue with its request value |
| Cgi.SetSlots | src/CGI.cpp:87-143 | setValue on each slot in turn with the value of the same index |
| Cgi.SetSlot | src/CGI.cpp:91 | setValue on one slot leaves the others alone |
| Cgi.SetEnvOnFreshBlock | src/CGI.cpp:87-143 | after initEnv and setEnv each slot is its name, '=' and the value cut to fit |
| Cgi.SetEnvForgetsPrevious | src/CGI.cpp:87-143 | a second setEnv leaves each slot as if the first had not happened |
| Cgi.ContentLengthEntry | src/CGI.cpp:120-121 | CONTENT_LENGTH holds the body length in decimal, which reads back exactly |
| Cgi.ServerPortEntry | src/CGI.cpp:138-139 | SERVER_PORT holds the port in decimal, which reads back exactly |
| Cgi.AuthTypeEntry | src/CGI.cpp:108-109 | AUTH_TYPE is Basic iff authentication is set, empty otherwise |
| Cgi.Collected | src/CGI.cpp:298-310 | the collected output holds no NUL |
| Cgi.CollectedAppend | src/CGI.cpp:298-310 | output read in runs is the concatenation of the runs while none ends the loop |
| Cgi.CollectedStops | src/CGI.cpp:302-307 | nothing after an empty or failed read is kept |
| Cgi.ExitValue | src/CGI.cpp:285-314 | 1 iff the child exited with 0 or its status is none of signalled, stopped, exited; 0 otherwise |
| Cgi.Cgi.constructor | src/CGI.cpp:7-11 | not compiled, all three arguments null |
| Cgi.Cgi.SetCompiled | src/CGI.cpp:145-148 | sets the compiled flag, nothing else |
| Cgi.Cgi.SetExecPath | src/CGI.cpp:155-158 | sets the interpreter path, nothing else |
| Cgi.Cgi.SetScriptPath | src/CGI.cpp:165-169 | stores the script path and reports success |
| Cgi.Cgi.Reset | src/CGI.cpp:176-179 | empties the result, nothing else |
| Cgi.Cgi.Exec | src/CGI.cpp:181-315 | a compiled non-executable script returns 0 with no argument set; otherwise args are [script, ""] or [interpreter, script], and the return and the appended output follow the exit classification |
| Cgi.Cgi.ReadOutput | src/CGI.cpp:298-310 | the result gains the collected output of the reads |
| Config.Get | src/Config.cpp:474-475 | an absent key gives null; a non-null value is the value of a member with that key |
| Config.IsValidKeyword | src/Config.cpp:255-273 | accepted iff the key is in the context; a globally known keyword in another context and an unknown key are refused |
| Config.IsValidKeywords | src/Config.cpp:275-285 | true iff every key is a keyword of the context |
| Config.ServerBlockContexts | src/Config.cpp:230-253 | alias is global but not a server-block keyword; nested keywords are not global; every context keyword is global |
| Config.IsSubset | src/Config.cpp:160-171 | 1 iff every element of the subset occurs in the set, 0 otherwise |
| Config.IsValidPort | src/Config.cpp:614-626 | valid iff at most 65535 and, below 1024, run as root; 49152-65535 is accepted |
| Config.CheckMutualExclusions | src/Config.cpp:473-478 | 0 only when both keys hold non-null values |
| Config.AliasOrRoot | src/Config.cpp:473-478 | without alias the check passes in either order |
| Config.BothKeysRefused | src/Config.cpp:473-478 | with both keys holding non-null values the check fails |
| Config.GetFirst | src/Config.cpp:474-475 | get finds the first member with the key |
| Config.IsValidRedirectAsWritten | src/Config.cpp:415-428 | as written, refused iff set with an empty URL: the code is never checked |
| Config.RedirectCodeUncheckedAsWritten | src/Config.cpp:419 | as written, a redirect with code 200 passes |
| Config.IsValidRedirect | src/Config.cpp:415-428 | corrected: valid iff unset, or a code in 300..308 with a non-empty URL |
| Config.RedirectChecksCompared | src/Config.cpp:419 | the corrected check refuses more, agrees on 3xx codes, and refuses code 200 |
| Config.StringsBefore | src/Config.cpp:185-193 | the strings before the first non-string element, in order |
| Config.StringsOfAllStrings | src/Config.cpp:185-193 | an all-string array is read whole |
| Config.StringsBeforeIs | src/Config.cpp:185-193 | a string prefix stopped by the end or a non-string is the one read |
| Config.GetArray | src/Config.cpp:173-195 | null gives the default; a non-array fails with the result untouched; an array clears the result, fills it with its strings in order and succeeds iff all are strings |
| Config.GetArrayRequired | src/Config.cpp:197-215 | the same, except that an absent or null member fails |
| Config.GetDefaultAllowedMethodsAsWritten | src/Config.cpp:219-228 | as written, 9 empty strings followed by the valid methods |
| Config.EmptyMethodAllowedAsWritten | src/Config.cpp:221 | as written, the empty string passes the allowed-method subset check |
| Config.GetDefaultAllowedMethods | src/Config.cpp:219-228 | corrected: exactly the valid methods in order |
| Config.AllowedMethodsChecked | src/Config.cpp:160-171 | against the corrected default, a list passes iff each entry is a valid method |
| Config.Pages | src/Config.cpp:354-372 | the stored error pages have codes in 300..599 |
| Config.ParseErrorPages | src/Config.cpp:340-374 | cleared first; absent gives the empty default; a non-object, a non-integer code, a code outside 300..599 or a non-string value fails; success iff every member is such a page, with the first of each code kept; on a failing member the pages of the members before it stay stored |
| Config.FirstBadPage | src/Config.cpp:354-372 | the index of the first member that is not a valid page: every member before it is one, and it is not |
| Config.FirstPageWins | src/Config.cpp:371 | the page stored for a code is the value of its first member |
| Config.NoEarlierCode | src/Config.cpp:371 | a code no member holds is not stored |
| Config.ParseRoot | src/Config.cpp:511-522 | success iff the root is a string (or the inherited default) naming an existing directory; the result then ends with '/', gaining one iff it lacked it |

## Left out

- Sockets, `poll`, `bind` and `listen` (src/ServerBlock.cpp) are OS I/O. The `recv` call in `readSocket` is an input (`Recv`).
- `pipe`, `dup`, `dup2`, `fork`, `execve`, `write`, `waitpid`, `read` and `kill` in `CGI::exec` are process plumbing. What they report is an input (`Outcome`), and the reads are a list of chunks. `setFullEnv`, which sets the process-wide environment, and `linkRequest` are not modelled.
- Filesystem calls (`stat`, `ifstream`, `opendir`/`readdir`, `isExecutableFile`) and `getuid` are a snapshot map from paths to nodes and a parameter.
- The JSON library behind the configuration loader is not part of this model. A document is a small `Json` value, with object members in iteration order. `strtod` and `isUInteger` on error-page keys are floating point: their verdict is a parameter (`conv`).
- The header vocabulary (`validHeaders`) and the `crc` hash are not part of this model. A header is recognised by membership of its lower-cased name in a set, and the header map is keyed by that name.
- The numeric values of `HTTP::StatusCode`, `ConfStatus`, the `PARSED_*` flags and `PERM_READ`, the `KW_*` spellings, `validMethods`, `GATEWAY_INTERFACE` and `SERVER_SOFTWARE` are defined in headers that are not part of this model.
  - Status codes are taken to be their HTTP numbers (CONTINUE = 100), the flags 1, 2 and 4, and `PERM_READ` 1.
  - `NONE_OR_INV` is taken to be the only failing `ConfStatus`.
  - Keywords are distinct datatype values.
- Logging (`Log`, `std::cout`) is omitted. The request's `body`, the URI and the location's alias, auth and other getters are omitted; only what the modelled routines read is an input.
- The body branch of `parseLine` only logs, so the model changes nothing there.
- Response.Response.ContentForGetHead: the request status that `doCGI` reads after the CGI run is taken from the run's reply (`CgiReply.status`). How the CGI class sets it is not modelled.
- Request.Request.ParseHeader: does not model the npos write for a line without a colon. That behaviour is `HeaderAsWritten`, and the method refuses such a line with BAD_REQUEST, as the rest of the parser evidently intends.
- Request.Request.ParseStartLine: reads each `!isValidX()` test as "the status is not CONTINUE", and a word that ends the line as leaving the scan at its end. The code as written is `StartLineAsWritten`.
- ReadSock.ReadSock.ReadSocket: writes the terminating NUL right after the received bytes (`NulIndex`), not one further as written, which overflows a full packet.
- ReadSock.ReadSock.Getline: withdraws the read permission by and-assigning `~PERM_READ`, where the code as written (`PermAfterReadAsWritten`) sets every other bit.
- Utils.GetWord: requires `pos` to be within the line. `std::string::substr` throws `out_of_range` for a start past the end, and that throwing case is excluded, not modelled; in the corrected parse every call passes a position within the line, and the as-written path that would reach it with npos is the overrun `StartLineAsWritten` reports.
- Response.Response.SetLeftToSend: requires `n` to be at most the response length. `_res.substr(n)` throws `out_of_range` past the end, and that throwing case is excluded, not modelled.
- Config.ParseRoot models only the root step of `parseLocation`. The alias, body-size, autoindex and later steps are not modelled.

## Findings

| source | as written | input that shows it | evidently intended | confidence | as-written member | corrected member |
|---|---|---|---|---|---|---|
| src/ReadSock.cpp:21 | `buf[recvBytes + 1] = '\0'` | a recv of exactly 65536 bytes writes index 65537 of a 65537-byte buffer | `buf[recvBytes] = '\0'` | high, not executed | ReadSock.NulWriteOverflows | ReadSock.NulIndex |
| src/ReadSock.cpp:42 | `~PERM_READ` is or-assigned to `sock.perm` | any readable socket: the read bit stays set and all other bits become set | `~PERM_READ` and-assigned to `sock.perm` | high, not executed | ReadSock.ReadPermNeverCleared | ReadSock.PermAfterRead |
| src/Request.cpp:55-80 | `if (!isValidMethod(...))` and the like test a status code against zero | "FOO x HTTP/1.0 " is accepted (no status code is 0) | `isValidX(...) != CONTINUE` | high (assumes CONTINUE = 100), not executed | Request.BadLineAcceptedAsWritten | Request.UnknownMethodNotImplemented |
| src/Request.cpp:67-71 | `getWord` leaves `pos` at npos when no blank follows, then `line[pos]` | "GET /a HTTP/1.1" reads `line[npos]` | stop the scan at the end of the line | high, not executed | Request.WellFormedLineOverrunsAsWritten | Request.WellFormedStartLine |
| src/Request.cpp:134-135 | `header.line[sepPos] = '\0'` with `sepPos == npos` | the header line "Host" | refuse a line without a colon | high, not executed | Request.HeaderWithoutColonAsWritten | Request.Request.ParseHeader |
| src/Config.cpp:419 | `code < 300 && code > 308` | a redirect with code 200 and a URL passes | a code below 300 or above 308 is refused | high, not executed | Config.RedirectCodeUncheckedAsWritten | Config.RedirectChecksCompared |
| src/Config.cpp:221 | `std::vector<std::string> allowed(9)` then `push_back` | the default holds 9 empty strings, so the method "" passes the subset check | reserve 9, or start empty | medium, not executed | Config.EmptyMethodAllowedAsWritten | Config.AllowedMethodsChecked |
