/**
 * The request-line parser (`RequestWorker.parse_request`): strip the line,
 * split it on single spaces, insist on exactly three tokens, upper-case the
 * method, strip `?` from both ends of the path and join the path, minus its
 * first character, onto the document root. No normalisation takes place.
 */
module RequestParser {
  import opened Wrappers
  import opened PyStr
  import PosixPath

  /** A parsed request line; `pathFull` is the filesystem path it names. */
  datatype Request = Request(httpMethod: string, path: string, pathFull: string, protocol: string)

  /** The argument of `path.strip('?')`. */
  const QUESTION_MARK: StripChars := Chars({'?'})

  /** Python's `path[1:]`, which is empty for an empty path. */
  function Tail(path: string): (r: string)
    ensures path == [] ==> r == []
    ensures path != [] ==> path == [path[0]] + r
  {
    if path == [] then [] else path[1..]
  }

  /** The request built from the three tokens of a well-formed line. */
  function RequestOf(documentRoot: string, methodToken: string, path: string, protocol: string): Request {
    var p := Strip(path, QUESTION_MARK);
    Request(Upper(methodToken), p, PosixPath.Join(documentRoot, Tail(p)), protocol)
  }

  /**
   * `parse_request` on an already decoded line: `None` is the unparsed
   * state, which leaves the worker's request fields at their reset values.
   * Parsing succeeds exactly when the stripped line has two spaces.
   */
  function Parse(line: string, documentRoot: string): (r: Option<Request>)
    ensures r.Some? <==> CountChar(Strip(line, Whitespace), ' ') == 2
  {
    var tokens := Split(Strip(line, Whitespace), ' ');
    if |tokens| != 3 then None
    else Some(RequestOf(documentRoot, tokens[0], tokens[1], tokens[2]))
  }

  /** A line that strips to three space-free tokens parses to exactly those tokens. */
  lemma ParseOfTokens(line: string, documentRoot: string, methodToken: string, path: string, protocol: string)
    requires Strip(line, Whitespace) == methodToken + " " + path + " " + protocol
    requires ' ' !in methodToken && ' ' !in path && ' ' !in protocol
    ensures Parse(line, documentRoot) == Some(RequestOf(documentRoot, methodToken, path, protocol))
  {
    var parts := [methodToken, path, protocol];
    JoinByThree(parts, ' ');
    SplitJoinBy(parts, ' ');
  }

  /** Conversely, a line that parses strips to three space-free tokens, and the request is built from them. */
  lemma ParseTokens(line: string, documentRoot: string) returns (methodToken: string, path: string, protocol: string)
    requires Parse(line, documentRoot).Some?
    ensures Strip(line, Whitespace) == methodToken + " " + path + " " + protocol
    ensures ' ' !in methodToken && ' ' !in path && ' ' !in protocol
    ensures Parse(line, documentRoot) == Some(RequestOf(documentRoot, methodToken, path, protocol))
  {
    var tokens := Split(Strip(line, Whitespace), ' ');
    methodToken, path, protocol := tokens[0], tokens[1], tokens[2];
    SplitPieces(Strip(line, Whitespace), ' ');
    JoinByThree(tokens, ' ');
  }

  /** What a parsed request holds: an upper-cased method and a path with no `?` at either end. */
  lemma ParsedFields(line: string, documentRoot: string)
    requires Parse(line, documentRoot).Some?
    ensures var r := Parse(line, documentRoot).value;
      Upper(r.httpMethod) == r.httpMethod
      && (r.path == [] || (r.path[0] != '?' && r.path[|r.path| - 1] != '?'))
      && r.pathFull == PosixPath.Join(documentRoot, Tail(r.path))
  {
    var m, p, v := ParseTokens(line, documentRoot);
    UpperIdempotent(m);
    StripSlice(p, QUESTION_MARK);
  }

  /**
   * The path is not normalised and not confined to the document root: a
   * request path such as `//etc/passwd` leaves the absolute `/etc/passwd`
   * after its first character is dropped, and joining replaces the root.
   */
  lemma AbsolutePathEscapesRoot(documentRoot: string, methodToken: string, path: string, protocol: string)
    requires |path| >= 2 && path[1] == '/'
    requires path[0] != '?' && path[|path| - 1] != '?'
    ensures RequestOf(documentRoot, methodToken, path, protocol).pathFull == path[1..]
  {
    StripUnchanged(path, QUESTION_MARK);
  }
}
