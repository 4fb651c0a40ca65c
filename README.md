# Otus httpd request pipeline, in Dafny

This project models how one connection is handled by `RequestWorker` in
`httpd.py`, a small threaded static-file HTTP server. After a per-job reset of
its fields, the worker:

1. parses the request line (`parse_request`): strip, split on single spaces,
   exactly three tokens, upper-case the method, strip `?` from both ends of the
   path, and join the path minus its first character onto the document root;
2. resolves it (`process_request`) through an ordered decision table:
   - 405 for any method but GET and HEAD;
   - 200 for a regular file;
   - 200 for a directory holding `index.html`;
   - 404 otherwise;
3. builds the header dict (`set_response_headers`) from a fixed five-entry
   literal, then overrides `Content-Length` and, when the extension is
   registered, `Content-Type`;
4. serialises the status line, the header lines and a blank line, and decides
   whether the body file's bytes follow (`send_response`).

The model has two layers.

* **Values.** Modules `PyStr`, `PosixPath`, `Http`, `RequestParser`,
  `StaticResolver`, `ResponseBuilder` and `Pipeline` define each step as a pure
  function. Lemmas prove what each step means.
* **The worker.** `Worker.RequestWorker` is a class with the source's fields
  (`requestMethod`, `requestPath`, `requestPathFull`, `requestProtocol`,
  `responseStatus`, `responseHeaders`, `responseBody`).
  - Its methods assign those fields step by step, in the order `run` calls
    them.
  - `SetResponseHeaders` overrides the dict entries in place.
  - `SendResponse` builds the header block with `+=` in a loop over the
    headers.
  - Each method is proved against the value layer.
  - `HandleJob` proves that the steps, run in sequence, leave the fields
    and produce the bytes of `Pipeline.Respond(line, ...)`.
  - So the `Pipeline` lemmas (`GetRegularFile`, `HeadLikeGet`,
    `DirectoryIndex`, `NotFound`, `Refused`, `MalformedLineRefused`,
    `OnlyDateVaries`, ...) apply to what the worker sends.

Supporting definitions:

* The filesystem is an input, `Http.FileSystem`:
  - a map from regular-file paths to their bytes (`isfile` is membership,
    `getsize` is the length, `open(...).read` gives the bytes);
  - a set of directory paths.
  - `FileSystem.Valid` says that the empty path is neither a file nor a
    directory, as `isfile("")` and `isdir("")` are false on POSIX.
* The `Date` value is an opaque string parameter.
* `posixpath.join` and `posixpath.splitext` are modelled as CPython defines
  them for POSIX, including `splitext`'s rule that leading dots of a file name
  do not start an extension.
* `str.strip()` removes the characters for which Python's `str.isspace()` is
  true.

What the code does that a reader might not expect:

* The path is not normalised before it is joined. A request path such as
  `//etc/passwd` resolves to `/etc/passwd`, outside the document root
  (`RequestParser.AbsolutePathEscapesRoot`).
* The status line always says `HTTP/1.1`, not the request's protocol token
  (`Pipeline.ProtocolIgnored`).
* `strip('?')` removes `?` from *both* ends of the path and does nothing to a
  `?` in the middle. It does not cut off a query string.
* The body-send guard compares by object identity; see "## Findings".

## Model

| member | source | states |
|---|---|---|
| PyStr.StripLeftSuffix | httpd.py:85 | the left strip keeps a suffix of the string, every character cut away is one `strip` removes, and the suffix does not start with one |
| PyStr.StripRightPrefix | httpd.py:85 | the right strip keeps a prefix, every character cut away is removable, and the prefix does not end with one |
| PyStr.StripSlice | httpd.py:85 | `strip` yields a contiguous slice that neither starts nor ends with a removable character, and everything cut from either end is removable |
| PyStr.StripUnchanged | httpd.py:90 | a string with no removable character at either end is its own strip |
| PyStr.Split | httpd.py:85 | `split(' ')` gives one piece more than there are separators |
| PyStr.SplitPieces | httpd.py:85 | no piece holds the separator, and joining the pieces with it gives back the string, empty pieces included |
| PyStr.SplitJoinBy | httpd.py:85 | splitting undoes joining whenever no piece contains the separator |
| PyStr.UpperAt | httpd.py:89 | `upper` keeps the length and maps each character on its own |
| PyStr.UpperIdempotent | httpd.py:89 | upper-casing an upper-cased method changes nothing |
| PyStr.NatToDecimal | httpd.py:128 | an integer renders as a non-empty string of decimal digits without a leading zero |
| PyStr.DecimalRoundTrip | httpd.py:128 | reading the rendered digits back gives the number |
| PosixPath.JoinShape | httpd.py:91 | `join(a, b)` ends with `b`; an absolute `b` replaces `a`; otherwise the result starts with `a`, has exactly one `/` inserted when `a` is non-empty and does not end with `/`, and none otherwise |
| PosixPath.RFind | httpd.py:121 | `rfind` gives the index of the last occurrence, or -1 when there is none |
| PosixPath.Splitext | httpd.py:121 | root and extension concatenate to the path; a non-empty extension starts with its only `.` and holds no `/` |
| PosixPath.SplitextExtension | httpd.py:121 | a non-empty extension has a non-dot character before it in the last component; an empty one means there is no dot in the last component, or only dots before its last dot |
| PosixPath.SplitextAt | httpd.py:121 | a last component `stem + ext`, with a stem that is not all dots and one dot in `ext`, has extension `ext` |
| PosixPath.SplitextJoinIndex | httpd.py:104 | `index.html` joined onto any directory has extension `.html` |
| PosixPath.SplitextLeadingDot | httpd.py:121 | a hidden file such as `dir/.profile` has no extension |
| Http.Reason | httpd.py:17-22 | every status has a non-empty reason phrase in the message table, under its own code |
| RequestParser.Parse | httpd.py:84-92 | a line parses exactly when its stripped form contains exactly two spaces |
| RequestParser.ParseOfTokens | httpd.py:85-92 | a line that strips to three space-free tokens parses to the request built from exactly those tokens: upper-cased method, `?`-stripped path, joined full path, protocol as given |
| RequestParser.ParseTokens | httpd.py:85-92 | conversely, every parsed line strips to three space-free tokens, and the request is built from them |
| RequestParser.ParsedFields | httpd.py:89-91 | a parsed method is upper-case, a parsed path has no `?` at either end, and the full path is the root joined with the path minus its first character |
| RequestParser.AbsolutePathEscapesRoot | httpd.py:91 | a path whose second character is `/` yields an absolute full path that ignores the document root |
| StaticResolver.Resolve | httpd.py:95-109 | the status is never 403; it is 405 exactly when the method is missing or not GET/HEAD; it is 200 exactly when a body is set; a body is an existing file, namely the full path itself or the `index.html` of that directory; in table order, an allowed method on a regular file gets 200 with that file, else on a directory holding `index.html` gets 200 with the index file, else gets 404 with no body |
| StaticResolver.RefusalIgnoresFilesystem | httpd.py:96-98 | a refused method gets 405 and no body whatever the filesystem holds |
| ResponseBuilder.Update | httpd.py:120 | `d[k] = v` keeps an existing key in place or appends a new one, makes `get(k)` give `v`, and leaves every other key's value alone |
| ResponseBuilder.UpdateAt | httpd.py:124 | assigning to a present key replaces its entry where it stands |
| ResponseBuilder.ExtensionKey | httpd.py:121-122 | the lookup key `extension[1:]` holds neither `.` nor `/` |
| ResponseBuilder.ContentTypeKnown | httpd.py:122-124 | the content type is the default or one of the registered types, and an unregistered extension keeps the default |
| ResponseBuilder.ContentTypeRegistered | httpd.py:24-33 | a registered extension, matched case-sensitively without its dot, gets exactly its registered type |
| ResponseBuilder.IndexIsHtml | httpd.py:104-124 | a directory's index file is served as `text/html` |
| ResponseBuilder.ResponseHeaderNames | httpd.py:112-124 | the overrides keep the five keys `Date`, `Server`, `Connection`, `Content-Type`, `Content-Length` in literal order |
| ResponseBuilder.HeaderLookups | httpd.py:112-124 | `get` of each key gives the date, `Otus httpd`, `close`, the body's content type (default without a body), and the body's size (0 without a body) |
| ResponseBuilder.SerializeHeadersEndsWithCrlf | httpd.py:129-130 | the header lines are empty exactly when there are no headers, and otherwise end with CRLF |
| ResponseBuilder.StatusLineFraming | httpd.py:127-128 | the status line starts `HTTP/1.1 `, carries the code's three digits (which read back as the code) followed by a space, and ends with CRLF |
| ResponseBuilder.WireHeadFraming | httpd.py:127-131 | the header block starts with that status line and ends with a blank line after the last header |
| Pipeline.GetRegularFile | httpd.py:99-124 | GET of a regular file gives 200, its size as `Content-Length`, its extension's type, and its bytes as the body |
| Pipeline.HeadLikeGet | httpd.py:134 | HEAD gets the status, headers and header block GET gets, and no body bytes |
| Pipeline.DirectoryIndex | httpd.py:103-108 | on a valid filesystem, GET or HEAD of a directory holding `index.html` gives 200, the index file's size, `text/html`, and (for GET only) the index file's bytes |
| Pipeline.NotFound | httpd.py:109 | an allowed method on anything else gives 404, the default headers and no body |
| Pipeline.Refused | httpd.py:96-98 | any other method, or none, gives 405, the default headers and no body |
| Pipeline.MalformedLineRefused | httpd.py:84-88 | a line without exactly two spaces once stripped is not parsed, and is answered 405 with the default headers and no body |
| Pipeline.GetLineServesFile | httpd.py:84-92 | from the raw line: three tokens, a method that upper-cases to GET, and a path naming a file give 200, the file's size and the file's bytes |
| Pipeline.ProtocolIgnored | httpd.py:128 | the reply does not depend on the request's protocol token |
| Pipeline.OnlyDateVaries | httpd.py:113 | repeating a request gives the same status, body and headers, except for the `Date` value |
| Pipeline.HeadBodyAsWritten | httpd.py:134 | with the guard as written, a HEAD request for a file would send the body bytes, which the intended guard does not |
| Worker.RequestWorker.constructor | httpd.py:40-46 | a new worker starts with every request and response field unset and an empty header dict |
| Worker.RequestWorker.ResetJob | httpd.py:66-72 | the per-job reset unsets all seven fields, leaving the header dict empty |
| Worker.RequestWorker.ParseRequest | httpd.py:81-92 | on a line that parses, the four request fields take the parsed values; otherwise all four keep their previous values |
| Worker.RequestWorker.ProcessRequest | httpd.py:95-109 | the status field is the resolver's status; the body field is the resolver's body when one is served, and is otherwise left as it was |
| Worker.RequestWorker.SetResponseHeaders | httpd.py:111-124 | after the in-place overrides, the header field is the header dict for the current body |
| Worker.RequestWorker.SendResponse | httpd.py:126-138 | the header string the loop builds is the serialised block for the status and header fields, and the body bytes are the file's contents exactly when there is a body and the method is not HEAD |
| Worker.RequestWorker.Answer | httpd.py:74-76 | from a parsed (or unparsed) request with no body set, the three remaining steps leave status, body and headers as the pipeline computes them, and send the pipeline's header block and body |
| Worker.RequestWorker.HandleJob | httpd.py:66-76 | one pass of the loop: the request fields describe the parse of the line (all unset when it does not parse), and the status, header dict, header block and body bytes are exactly `Pipeline.Respond` of the line |

## Left out

- Threads, the job queue and its busy-polling loop, `task_done` and the worker pool: concurrency, outside a sequential model.
- Sockets: listening, `accept`, `makefile`, `sendall` and `send`, and closing the connection. The sent output is modelled as the pair (header block, body bytes).
- Chunked reading of the body file and the broken-pipe handler: transport behaviour. The body is sent whole.
- Real filesystem calls: `isfile`, `isdir`, `getsize` and `open` are answered from the `FileSystem` value.
- `formatdate`: it depends on the clock and an external library, so the date is an opaque string parameter.
- UTF-8 decoding and the 65537-byte `readline` bound: the model starts from the decoded request line. The header block is a string; its encoding for `sendall` is not modelled.
- Logging, the option parser and the `__main__` block: plumbing with no effect on the reply.
- The worker's `socket`, `rfile`, `address`, `name` and queue fields: they only feed I/O and logging.
- PyStr.Upper: maps only ASCII `a`-`z`. Python's `str.upper` also maps other letters, and can lengthen the string; the model leaves those letters unchanged.
- Worker.RequestWorker.SendResponse: writes each header line from the entry's own value. This equals `headers.get(h)` because the keys are distinct (`ResponseBuilder.ResponseHeaderNames`).
- Path-traversal safety: the code does not enforce it, so the model proves the opposite (`RequestParser.AbsolutePathEscapesRoot`).

## Findings

| source | as written | input that shows it | evidently intended | confidence | as-written member | corrected member |
|---|---|---|---|---|---|---|
| httpd.py:134 | the body guard tests the method with `is not HEAD`, by object identity; `method.upper()` returns a new string object, so the test always passes | `HEAD /index.html HTTP/1.1` for an existing file: the file's bytes follow the header block | string inequality, so that HEAD gets the headers but no body | not executed | Pipeline.HeadBodyAsWritten | Pipeline.HeadLikeGet |
