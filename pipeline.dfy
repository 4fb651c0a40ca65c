/**
 * One job end to end, as values: parse the request line, resolve it, build
 * the headers, and produce the header block and the body bytes that follow
 * it. The worker class is proved to send exactly this.
 */
module Pipeline {
  import opened Wrappers
  import opened PyStr
  import opened Http
  import opened RequestParser
  import opened StaticResolver
  import opened ResponseBuilder

  /** What one job produces: the status, the header dict, the header block, and the body bytes sent after it. */
  datatype Reply = Reply(status: Status, headers: seq<Header>, head: string, body: seq<byte>)

  /** The method field: absent for the unparsed request. */
  function MethodOf(req: Option<Request>): Option<string> {
    if req.Some? then Some(req.value.httpMethod) else None
  }

  /** The reply to a parsed (or unparsed) request. */
  function Serve(req: Option<Request>, fs: FileSystem, date: string): Reply {
    var res := Resolve(req, fs);
    var headers := ResponseHeaders(date, res.body, fs);
    Reply(res.status, headers, WireHead(res.status, headers),
          if SendsBody(res.body, MethodOf(req)) then fs.files[res.body.value] else [])
  }

  /** The reply to a request line. */
  function Respond(line: string, documentRoot: string, fs: FileSystem, date: string): Reply {
    Serve(Parse(line, documentRoot), fs, date)
  }

  /**
   * GET of an existing regular file: 200, `Content-Length` is the file's
   * size, `Content-Type` follows its extension, and the body is the file.
   */
  lemma GetRegularFile(req: Request, fs: FileSystem, date: string)
    requires fs.Valid()
    requires req.httpMethod == GET && req.pathFull in fs.files
    ensures var r := Serve(Some(req), fs, date);
      r.status == OK
      && Lookup(r.headers, "Content-Length") == Some(Number(|fs.files[req.pathFull]|))
      && Lookup(r.headers, "Content-Type") == Some(Text(ContentTypeOf(req.pathFull)))
      && r.body == fs.files[req.pathFull]
  {
    HeaderLookups(date, Some(req.pathFull), fs);
  }

  /** HEAD gets the status and headers GET would get, and no body bytes. */
  lemma HeadLikeGet(req: Request, fs: FileSystem, date: string)
    ensures var g := Serve(Some(req.(httpMethod := GET)), fs, date);
      var h := Serve(Some(req.(httpMethod := HEAD)), fs, date);
      h.status == g.status && h.headers == g.headers && h.head == g.head && h.body == []
  {
  }

  /**
   * GET or HEAD of a directory holding `index.html`: 200, the index file's
   * size, `text/html`, and (for GET) the index file as body.
   */
  lemma DirectoryIndex(req: Request, fs: FileSystem, date: string)
    requires fs.Valid()
    requires IsAllowed(Some(req)) && req.pathFull !in fs.files
    requires req.pathFull in fs.dirs && IndexOf(req.pathFull) in fs.files
    ensures var r := Serve(Some(req), fs, date);
      var index := IndexOf(req.pathFull);
      r.status == OK
      && Lookup(r.headers, "Content-Length") == Some(Number(|fs.files[index]|))
      && Lookup(r.headers, "Content-Type") == Some(Text("text/html"))
      && r.body == (if req.httpMethod == GET then fs.files[index] else [])
  {
    var index := IndexOf(req.pathFull);
    assert index != "" by {
      PosixPath.JoinShape(req.pathFull, DEFAULT_INDEX);
    }
    IndexIsHtml(req.pathFull);
    HeaderLookups(date, Some(index), fs);
  }

  /** GET or HEAD of anything else: 404 with an empty body and the default headers. */
  lemma NotFound(req: Request, fs: FileSystem, date: string)
    requires IsAllowed(Some(req)) && req.pathFull !in fs.files
    requires req.pathFull !in fs.dirs || IndexOf(req.pathFull) !in fs.files
    ensures var r := Serve(Some(req), fs, date);
      r.status == Status.NotFound && r.headers == DefaultHeaders(date) && r.body == []
  {
  }

  /** Any other method, or no method at all: 405 with an empty body and the default headers. */
  lemma Refused(req: Option<Request>, fs: FileSystem, date: string)
    requires !IsAllowed(req)
    ensures var r := Serve(req, fs, date);
      r.status == MethodNotAllowed && r.headers == DefaultHeaders(date) && r.body == []
  {
  }

  /** A request line without exactly two spaces (once stripped) is never parsed and is refused with 405. */
  lemma MalformedLineRefused(line: string, documentRoot: string, fs: FileSystem, date: string)
    requires CountChar(Strip(line, Whitespace), ' ') != 2
    ensures Parse(line, documentRoot) == None
    ensures var r := Respond(line, documentRoot, fs, date);
      r.status == MethodNotAllowed && r.headers == DefaultHeaders(date) && r.body == []
  {
  }

  /**
   * End to end from the text: a line of three tokens whose method upper-cases
   * to GET and whose path names an existing file is answered with 200 and
   * that file's bytes, under a header block announcing its size.
   */
  lemma GetLineServesFile(line: string, documentRoot: string, fs: FileSystem, date: string,
                          methodToken: string, path: string, protocol: string)
    requires fs.Valid()
    requires Strip(line, Whitespace) == methodToken + " " + path + " " + protocol
    requires ' ' !in methodToken && ' ' !in path && ' ' !in protocol
    requires Upper(methodToken) == GET
    requires RequestOf(documentRoot, methodToken, path, protocol).pathFull in fs.files
    ensures var file := RequestOf(documentRoot, methodToken, path, protocol).pathFull;
      var r := Respond(line, documentRoot, fs, date);
      r.status == OK
      && r.head == WireHead(OK, r.headers)
      && Lookup(r.headers, "Content-Length") == Some(Number(|fs.files[file]|))
      && r.body == fs.files[file]
  {
    ParseOfTokens(line, documentRoot, methodToken, path, protocol);
    GetRegularFile(RequestOf(documentRoot, methodToken, path, protocol), fs, date);
  }

  /** The status line says `HTTP/1.1` whatever protocol the request carried. */
  lemma ProtocolIgnored(req: Request, protocol: string, fs: FileSystem, date: string)
    ensures Serve(Some(req), fs, date) == Serve(Some(req.(protocol := protocol)), fs, date)
  {
  }

  /** Repeating a request gives the same reply except for the `Date` value. */
  lemma OnlyDateVaries(req: Option<Request>, fs: FileSystem, date1: string, date2: string)
    ensures var r1 := Serve(req, fs, date1);
      var r2 := Serve(req, fs, date2);
      r1.status == r2.status && r1.body == r2.body && r1.headers[1..] == r2.headers[1..]
      && r1.headers[0] == Header("Date", Text(date1)) && r2.headers[0] == Header("Date", Text(date2))
  {
  }

  /**
   * The guard as written sends the body of a HEAD request for an existing
   * file, where the intended guard sends none.
   */
  lemma HeadBodyAsWritten(req: Request, fs: FileSystem)
    requires fs.Valid()
    requires req.httpMethod == HEAD && req.pathFull in fs.files
    ensures var body := Resolve(Some(req), fs).body;
      SendsBodyAsWritten(body, Some(req.httpMethod)) && !SendsBody(body, Some(req.httpMethod))
  {
  }
}
