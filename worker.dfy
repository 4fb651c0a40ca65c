/**
 * The worker (`RequestWorker`): per job it resets its request and response
 * fields, then parses, resolves, builds the headers and sends, each step
 * assigning fields of the worker as the next step expects them.
 */
module Worker {
  import opened Wrappers
  import opened PyStr
  import opened Http
  import opened RequestParser
  import opened StaticResolver
  import opened ResponseBuilder
  import PosixPath
  import Pipeline

  class RequestWorker {
    const documentRoot: string

    var requestMethod: Option<string>
    var requestPath: Option<string>
    var requestPathFull: Option<string>
    var requestProtocol: Option<string>
    var responseStatus: Option<Status>
    var responseHeaders: seq<Header>
    var responseBody: Option<string>

    /** The request fields are set together by a successful parse, or all left unset. */
    ghost predicate RequestFieldsAgree()
      reads this`requestMethod, this`requestPath, this`requestPathFull, this`requestProtocol
    {
      requestMethod.Some? == requestPath.Some?
      && requestPath.Some? == requestPathFull.Some?
      && requestPathFull.Some? == requestProtocol.Some?
    }

    /** The request the fields describe; `None` is the unparsed state. */
    ghost function CurrentRequest(): Option<Request>
      reads this`requestMethod, this`requestPath, this`requestPathFull, this`requestProtocol
      requires RequestFieldsAgree()
    {
      if requestMethod.None? then None
      else Some(Request(requestMethod.value, requestPath.value, requestPathFull.value, requestProtocol.value))
    }

    /** Every field starts unset, as each job will reset them. */
    constructor (documentRoot: string)
      ensures this.documentRoot == documentRoot
      ensures requestMethod == None && requestPath == None && requestPathFull == None && requestProtocol == None
      ensures responseStatus == None && responseHeaders == [] && responseBody == None
    {
      this.documentRoot := documentRoot;
      requestMethod, requestPath, requestPathFull, requestProtocol := None, None, None, None;
      responseStatus, responseHeaders, responseBody := None, [], None;
    }

    /** The per-job reset at the top of the worker loop. */
    method ResetJob()
      modifies this
      ensures requestMethod == None && requestPath == None && requestPathFull == None && requestProtocol == None
      ensures responseStatus == None && responseHeaders == [] && responseBody == None
    {
      requestMethod := None;
      requestPath := None;
      requestPathFull := None;
      requestProtocol := None;
      responseStatus := None;
      responseHeaders := [];
      responseBody := None;
    }

    /**
     * `parse_request` on the decoded request line: on three tokens the four
     * request fields take the parsed values; otherwise nothing changes.
     */
    method ParseRequest(line: string)
      modifies this`requestMethod, this`requestPath, this`requestPathFull, this`requestProtocol
      ensures Parse(line, documentRoot).None? ==>
        requestMethod == old(requestMethod) && requestPath == old(requestPath)
        && requestPathFull == old(requestPathFull) && requestProtocol == old(requestProtocol)
      ensures Parse(line, documentRoot).Some? ==>
        var r := Parse(line, documentRoot).value;
        requestMethod == Some(r.httpMethod) && requestPath == Some(r.path)
        && requestPathFull == Some(r.pathFull) && requestProtocol == Some(r.protocol)
    {
      var tokens := Split(Strip(line, Whitespace), ' ');
      if |tokens| != 3 {
        return;
      }
      var verb := Upper(tokens[0]);
      var path := Strip(tokens[1], QUESTION_MARK);
      var full := PosixPath.Join(documentRoot, Tail(path));
      assert Request(verb, path, full, tokens[2]) == RequestOf(documentRoot, tokens[0], tokens[1], tokens[2]);
      requestMethod, requestPath, requestPathFull, requestProtocol := Some(verb), Some(path), Some(full), Some(tokens[2]);
    }

    /**
     * `process_request`: the status is the resolver's; the body field is
     * assigned only when a file is served and is otherwise left as it was.
     */
    method ProcessRequest(fs: FileSystem)
      requires RequestFieldsAgree()
      modifies this`responseStatus, this`responseBody
      ensures var res := Resolve(old(CurrentRequest()), fs);
        responseStatus == Some(res.status)
        && responseBody == (if res.body.Some? then res.body else old(responseBody))
    {
      if requestMethod.None? || requestMethod.value !in ALLOWED_METHODS {
        responseStatus := Some(MethodNotAllowed);
        return;
      }
      var full := requestPathFull.value;
      if full in fs.files {
        responseStatus := Some(OK);
        responseBody := Some(full);
        return;
      }
      if full in fs.dirs {
        var indexFile := PosixPath.Join(full, DEFAULT_INDEX);
        if indexFile in fs.files {
          responseStatus := Some(OK);
          responseBody := Some(indexFile);
          return;
        }
      }
      responseStatus := Some(Status.NotFound);
    }

    /**
     * `set_response_headers`: start from the default dict, then, when there
     * is a body, override `Content-Length` with its size and `Content-Type`
     * with the registered type of its extension, in place.
     */
    method SetResponseHeaders(date: string, fs: FileSystem)
      requires Truthy(responseBody) ==> responseBody.value in fs.files
      modifies this`responseHeaders
      ensures responseHeaders == ResponseHeaders(date, responseBody, fs)
    {
      var headers := DefaultHeaders(date);
      if Truthy(responseBody) {
        var body := responseBody.value;
        var size := |fs.files[body]|;
        UpdateAt(headers, 4, Number(size));
        headers := Update(headers, "Content-Length", Number(size));
        var (_, extension) := PosixPath.Splitext(body);
        var key := if extension == [] then [] else extension[1..];
        assert key == ExtensionKey(body);
        if key in CONTENT_TYPES && CONTENT_TYPES[key] != "" {
          UpdateAt(headers, 3, Text(CONTENT_TYPES[key]));
          headers := Update(headers, "Content-Type", Text(CONTENT_TYPES[key]));
        }
        assert headers[3] == Header("Content-Type", Text(ContentTypeOf(body)));
      }
      responseHeaders := headers;
    }

    /**
     * The first half of `send_response`: the header block, built line by
     * line, and the body bytes that follow it when there is a body and the
     * request is not HEAD (string equality, the evident intent of the guard).
     */
    method SendResponse(fs: FileSystem) returns (head: string, body: seq<byte>)
      requires responseStatus.Some?
      requires SendsBody(responseBody, requestMethod) ==> responseBody.value in fs.files
      ensures head == WireHead(responseStatus.value, responseHeaders)
      ensures body == if SendsBody(responseBody, requestMethod) then fs.files[responseBody.value] else []
    {
      var status := responseStatus.value;
      var headers := responseHeaders;
      var message := MESSAGES[status.Code()];
      head := "HTTP/1.1 " + NatToDecimal(status.Code()) + " " + message + "\r\n";
      ghost var statusLine := head;
      assert statusLine == StatusLine(status);
      assert headers[..0] == [];
      var i := 0;
      while i < |headers|
        invariant 0 <= i <= |headers|
        invariant head == statusLine + SerializeHeaders(headers[..i])
      {
        var h := headers[i];
        HeaderLoopStep(statusLine, headers, i);
        var line := h.name + ": " + FormatValue(h.value) + "\r\n";
        head := head + line;
        i := i + 1;
      }
      assert headers[..i] == headers;
      head := head + "\r\n";
      if SendsBody(responseBody, requestMethod) {
        body := fs.files[responseBody.value];
      } else {
        body := [];
      }
    }

    /**
     * The response fields, the header block and the body bytes are what the
     * pure pipeline computes, step by step, for the request the fields hold.
     */
    ghost predicate Replied(fs: FileSystem, date: string, head: string, body: seq<byte>)
      reads this
      requires RequestFieldsAgree()
    {
      var res := Resolve(CurrentRequest(), fs);
      responseStatus == Some(res.status) && responseBody == res.body
      && responseHeaders == ResponseHeaders(date, res.body, fs)
      && head == WireHead(res.status, responseHeaders)
      && body == (if SendsBody(res.body, requestMethod) then fs.files[res.body.value] else [])
    }

    /**
     * The three steps after parsing: resolve, build the headers, send.
     */
    method Answer(fs: FileSystem, date: string) returns (head: string, body: seq<byte>)
      requires RequestFieldsAgree() && responseBody == None
      modifies this`responseStatus, this`responseBody, this`responseHeaders
      ensures Replied(fs, date, head, body)
    {
      ghost var res := Resolve(CurrentRequest(), fs);
      ProcessRequest(fs);
      assert responseStatus == Some(res.status) && responseBody == res.body;
      SetResponseHeaders(date, fs);
      assert responseHeaders == ResponseHeaders(date, res.body, fs);
      head, body := SendResponse(fs);
      assert res == Resolve(CurrentRequest(), fs);
    }

    /**
     * One pass of the worker loop for one connection: reset, parse, then
     * answer. The fields describe the parsed line (unset when it did not
     * parse), and the status, header dict, header block and body bytes are
     * the reply `Pipeline.Respond` gives to that line.
     */
    method HandleJob(line: string, fs: FileSystem, date: string) returns (head: string, body: seq<byte>)
      modifies this
      ensures RequestFieldsAgree() && CurrentRequest() == Parse(line, documentRoot)
      ensures Replied(fs, date, head, body)
      ensures responseStatus.Some?
        && Pipeline.Respond(line, documentRoot, fs, date) == Pipeline.Reply(responseStatus.value, responseHeaders, head, body)
    {
      ResetJob();
      ParseRequest(line);
      assert RequestFieldsAgree() && CurrentRequest() == Parse(line, documentRoot);
      head, body := Answer(fs, date);
    }
  }
}
