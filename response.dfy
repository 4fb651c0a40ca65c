/**
 * The response builder: the header map of `set_response_headers` and the
 * header block that the first half of `send_response` writes.
 */
module ResponseBuilder {
  import opened Wrappers
  import opened PyStr
  import opened Http
  import PosixPath

  /** A header value as the dict holds it: a string, or the integer `Content-Length`. */
  datatype HeaderValue = Text(text: string) | Number(n: nat)

  datatype Header = Header(name: string, value: HeaderValue)

  const DEFAULT_CONTENT_TYPE := "text/html; charset=\"utf8\""
  const SERVER_NAME := "Otus httpd"

  /** The header names, in the order the dict literal inserts them. */
  const HEADER_NAMES: seq<string> := ["Date", "Server", "Connection", "Content-Type", "Content-Length"]

  /** Python's truth value of `response_body`: set, and not the empty string. */
  predicate Truthy(body: Option<string>) {
    body.Some? && body.value != ""
  }

  // ---------------------------------------------------------------------------
  // The header dict as an insertion-ordered sequence of entries

  /** The keys of a header dict, in insertion order. */
  function Names(hs: seq<Header>): seq<string> {
    if hs == [] then [] else [hs[0].name] + Names(hs[1..])
  }

  /** The i-th key is the name of the i-th entry. */
  lemma {:induction false} NamesAt(hs: seq<Header>)
    ensures |Names(hs)| == |hs|
    ensures forall i :: 0 <= i < |hs| ==> Names(hs)[i] == hs[i].name
  {
    if hs != [] {
      NamesAt(hs[1..]);
    }
  }

  /** `dict.get(k)`: the value of the first entry named `k`. */
  function Lookup(hs: seq<Header>, k: string): Option<HeaderValue> {
    if hs == [] then None
    else if hs[0].name == k then Some(hs[0].value)
    else Lookup(hs[1..], k)
  }

  /** The first entry with a given key decides what `dict.get` returns. */
  lemma {:induction false} LookupAt(hs: seq<Header>, i: nat)
    requires i < |hs| && forall j :: 0 <= j < i ==> hs[j].name != hs[i].name
    ensures Lookup(hs, hs[i].name) == Some(hs[i].value)
  {
    if i > 0 {
      LookupAt(hs[1..], i - 1);
    }
  }

  /**
   * `d[k] = v`: an existing key keeps its place and takes the new value, a
   * new key goes at the end; every other key keeps its value.
   */
  function Update(hs: seq<Header>, k: string, v: HeaderValue): (r: seq<Header>)
    ensures k in Names(hs) ==> Names(r) == Names(hs)
    ensures k !in Names(hs) ==> Names(r) == Names(hs) + [k]
    ensures Lookup(r, k) == Some(v)
    ensures forall j :: j != k ==> Lookup(r, j) == Lookup(hs, j)
  {
    if hs == [] then [Header(k, v)]
    else if hs[0].name == k then
      var r := [Header(k, v)] + hs[1..];
      assert r[1..] == hs[1..];
      r
    else
      var rest := Update(hs[1..], k, v);
      var r := [hs[0]] + rest;
      assert r[1..] == rest;
      r
  }

  /** Assigning to an existing key replaces its entry where it stands. */
  lemma {:induction false} UpdateAt(hs: seq<Header>, i: nat, v: HeaderValue)
    requires i < |hs| && forall j :: 0 <= j < i ==> hs[j].name != hs[i].name
    ensures Update(hs, hs[i].name, v) == hs[i := Header(hs[i].name, v)]
  {
    if i > 0 {
      UpdateAt(hs[1..], i - 1, v);
      assert hs[i := Header(hs[i].name, v)] == [hs[0]] + hs[1..][i - 1 := Header(hs[i].name, v)];
    }
  }

  /** The header dict `set_response_headers` starts from. */
  function DefaultHeaders(date: string): seq<Header> {
    [ Header("Date", Text(date)),
      Header("Server", Text(SERVER_NAME)),
      Header("Connection", Text("close")),
      Header("Content-Type", Text(DEFAULT_CONTENT_TYPE)),
      Header("Content-Length", Number(0)) ]
  }

  // ---------------------------------------------------------------------------
  // Header values

  /** Python's `extension[1:]` for the extension `splitext` finds. */
  function ExtensionKey(path: string): (key: string)
    ensures '.' !in key && '/' !in key
  {
    var ext := PosixPath.Splitext(path).1;
    if ext == [] then [] else ext[1..]
  }

  /**
   * The `Content-Type` of a served file: the registered MIME type of its
   * extension (case-sensitive, dot removed), else the default.
   */
  function ContentTypeOf(path: string): string
  {
    var key := ExtensionKey(path);
    if key in CONTENT_TYPES && CONTENT_TYPES[key] != "" then CONTENT_TYPES[key] else DEFAULT_CONTENT_TYPE
  }

  /** The type is always the default or one of the registered types, and unregistered extensions get the default. */
  lemma ContentTypeKnown(path: string)
    ensures ContentTypeOf(path) == DEFAULT_CONTENT_TYPE || ContentTypeOf(path) in CONTENT_TYPES.Values
    ensures ExtensionKey(path) !in CONTENT_TYPES ==> ContentTypeOf(path) == DEFAULT_CONTENT_TYPE
  {
  }

  /** Every path whose extension is registered gets exactly the registered type. */
  lemma ContentTypeRegistered(path: string)
    requires ExtensionKey(path) in CONTENT_TYPES
    ensures ContentTypeOf(path) == CONTENT_TYPES[ExtensionKey(path)]
  {
    var key := ExtensionKey(path);
    assert CONTENT_TYPES[key] != "" by {
      assert forall k :: k in CONTENT_TYPES ==> CONTENT_TYPES[k] != "";
    }
  }

  /** A directory's index file is always served as `text/html`. */
  lemma IndexIsHtml(dir: string)
    ensures ContentTypeOf(PosixPath.Join(dir, DEFAULT_INDEX)) == "text/html"
  {
    var p := PosixPath.Join(dir, DEFAULT_INDEX);
    assert ExtensionKey(p) == "html" by {
      PosixPath.SplitextJoinIndex(dir);
      assert ".html"[1..] == "html";
    }
    ContentTypeRegistered(p);
  }

  /** The `Content-Type` value for a (possibly absent) body. */
  function ContentType(body: Option<string>): string {
    if Truthy(body) then ContentTypeOf(body.value) else DEFAULT_CONTENT_TYPE
  }

  /** The `Content-Length` value: the size of the body file, or 0 without one. */
  function ContentLength(body: Option<string>, fs: FileSystem): nat
    requires Truthy(body) ==> body.value in fs.files
  {
    if Truthy(body) then |fs.files[body.value]| else 0
  }

  /** The header dict once `set_response_headers` has applied its overrides. */
  function ResponseHeaders(date: string, body: Option<string>, fs: FileSystem): seq<Header>
    requires Truthy(body) ==> body.value in fs.files
  {
    [ Header("Date", Text(date)),
      Header("Server", Text(SERVER_NAME)),
      Header("Connection", Text("close")),
      Header("Content-Type", Text(ContentType(body))),
      Header("Content-Length", Number(ContentLength(body, fs))) ]
  }

  /** The overrides keep the five keys of the literal in their order. */
  lemma ResponseHeaderNames(date: string, body: Option<string>, fs: FileSystem)
    requires Truthy(body) ==> body.value in fs.files
    ensures Names(ResponseHeaders(date, body, fs)) == Names(DefaultHeaders(date)) == HEADER_NAMES
  {
    NamesAt(ResponseHeaders(date, body, fs));
    NamesAt(DefaultHeaders(date));
  }

  /** What `dict.get` returns for each key of the finished header dict. */
  lemma HeaderLookups(date: string, body: Option<string>, fs: FileSystem)
    requires Truthy(body) ==> body.value in fs.files
    ensures var hs := ResponseHeaders(date, body, fs);
      Lookup(hs, "Date") == Some(Text(date))
      && Lookup(hs, "Server") == Some(Text(SERVER_NAME))
      && Lookup(hs, "Connection") == Some(Text("close"))
      && Lookup(hs, "Content-Type") == Some(Text(ContentType(body)))
      && Lookup(hs, "Content-Length") == Some(Number(ContentLength(body, fs)))
  {
    var hs := ResponseHeaders(date, body, fs);
    LookupAt(hs, 0);
    LookupAt(hs, 1);
    LookupAt(hs, 2);
    LookupAt(hs, 3);
    LookupAt(hs, 4);
  }

  // ---------------------------------------------------------------------------
  // The header block on the wire

  /** The f-string rendering of a header value. */
  function FormatValue(v: HeaderValue): string {
    match v
    case Text(s) => s
    case Number(n) => NatToDecimal(n)
  }

  /** One `Key: Value` line, CRLF-terminated. */
  function HeaderLine(h: Header): string {
    h.name + ": " + FormatValue(h.value) + "\r\n"
  }

  /** The header lines in dict order. */
  function SerializeHeaders(hs: seq<Header>): string {
    if hs == [] then "" else HeaderLine(hs[0]) + SerializeHeaders(hs[1..])
  }

  /** Serialising one more header appends its line: the step of the `for h in headers` loop. */
  lemma {:induction false} SerializeHeadersSnoc(hs: seq<Header>, h: Header)
    ensures SerializeHeaders(hs + [h]) == SerializeHeaders(hs) + HeaderLine(h)
  {
    if hs == [] {
      assert [h][1..] == [];
    } else {
      assert (hs + [h])[1..] == hs[1..] + [h];
      SerializeHeadersSnoc(hs[1..], h);
    }
  }

  /** One more turn of the loop over the headers, after any prefix: the next line is appended. */
  lemma HeaderLoopStep(prefix: string, hs: seq<Header>, i: nat)
    requires i < |hs|
    ensures prefix + SerializeHeaders(hs[..i]) + HeaderLine(hs[i]) == prefix + SerializeHeaders(hs[..i + 1])
  {
    assert hs[..i + 1] == hs[..i] + [hs[i]];
    SerializeHeadersSnoc(hs[..i], hs[i]);
  }

  /** The serialised lines are empty or end with CRLF. */
  lemma {:induction false} SerializeHeadersEndsWithCrlf(hs: seq<Header>)
    ensures var s := SerializeHeaders(hs);
      (hs == [] <==> s == "")
      && (s != "" ==> |s| >= 2 && s[|s| - 2..] == "\r\n")
  {
    if hs != [] {
      SerializeHeadersEndsWithCrlf(hs[1..]);
    }
  }

  /** The status line: always `HTTP/1.1`, whatever protocol the request named. */
  function StatusLine(s: Status): string {
    "HTTP/1.1 " + NatToDecimal(s.Code()) + " " + Reason(s) + "\r\n"
  }

  /** The whole block written before any body bytes: status line, headers, blank line. */
  function WireHead(s: Status, hs: seq<Header>): string {
    StatusLine(s) + SerializeHeaders(hs) + "\r\n"
  }

  /** A three-digit code renders as three digits. */
  lemma {:induction false} ThreeDigits(n: nat)
    requires 100 <= n < 1000
    ensures |NatToDecimal(n)| == 3
  {
    assert |NatToDecimal(n / 10)| == 2 by {
      assert |NatToDecimal(n / 100)| == 1;
    }
  }

  /** A line `HTTP/1.1 <n> <reason>` for a three-digit `n` carries its digits at columns 9 to 11. */
  lemma CodeLineFraming(n: nat, reason: string)
    requires 100 <= n < 1000
    ensures var l := "HTTP/1.1 " + NatToDecimal(n) + " " + reason + "\r\n";
      |l| >= 15 && l[..9] == "HTTP/1.1 " && l[12] == ' '
      && IsDigits(l[9..12]) && DecimalValue(l[9..12]) == n
      && l[|l| - 2..] == "\r\n"
  {
    var code := NatToDecimal(n);
    ThreeDigits(n);
    DecimalRoundTrip(n);
    var l := "HTTP/1.1 " + code + " " + reason + "\r\n";
    assert l == "HTTP/1.1 " + code + (" " + reason + "\r\n");
    assert l[9..12] == code;
  }

  /** The status line is `HTTP/1.1 `, the three digits of the code, a space, and ends with CRLF. */
  lemma StatusLineFraming(s: Status)
    ensures var l := StatusLine(s);
      |l| >= 15 && l[..9] == "HTTP/1.1 " && l[12] == ' '
      && IsDigits(l[9..12]) && DecimalValue(l[9..12]) == s.Code()
      && l[|l| - 2..] == "\r\n"
  {
    CodeLineFraming(s.Code(), Reason(s));
  }

  /** Appending CRLF-terminated lines and a blank line to a CRLF-terminated line keeps its first 12 characters. */
  lemma BlockFraming(l: string, lines: string)
    requires |l| >= 15 && l[|l| - 2..] == "\r\n"
    requires lines == "" || (|lines| >= 2 && lines[|lines| - 2..] == "\r\n")
    ensures var w := l + lines + "\r\n";
      |w| >= 17 && w[..12] == l[..12] && w[|w| - 4..] == "\r\n\r\n"
  {
    var t := l + lines;
    assert t[|t| - 2..] == "\r\n" by {
      if lines == "" {
        assert t == l;
      } else {
        assert t[|t| - 2..] == lines[|lines| - 2..];
      }
    }
    var w := t + "\r\n";
    assert w[|w| - 4..] == t[|t| - 2..] + "\r\n";
  }

  /**
   * A client can read the status back: the block starts with the status
   * line, and ends with an empty line after the last header.
   */
  lemma WireHeadFraming(s: Status, hs: seq<Header>)
    ensures var w := WireHead(s, hs);
      |w| >= 17 && w[..9] == "HTTP/1.1 " && w[12] == ' '
      && IsDigits(w[9..12]) && DecimalValue(w[9..12]) == s.Code()
      && w[|w| - 4..] == "\r\n\r\n"
  {
    var l := StatusLine(s);
    StatusLineFraming(s);
    SerializeHeadersEndsWithCrlf(hs);
    BlockFraming(l, SerializeHeaders(hs));
    var w := WireHead(s, hs);
    assert w[..12] == l[..12];
    assert w[9..12] == l[9..12] && w[..9] == l[..9];
  }

  // ---------------------------------------------------------------------------
  // Whether body bytes follow the header block

  /** Body bytes are sent when there is a body and the request is not HEAD. */
  predicate SendsBody(body: Option<string>, httpMethod: Option<string>) {
    Truthy(body) && httpMethod != Some(HEAD)
  }

  /**
   * The guard as written, `response_body and request_method is not HEAD`:
   * the method is always a fresh result of `str.upper()`, never the `HEAD`
   * constant object itself, so the identity test always passes.
   */
  predicate SendsBodyAsWritten(body: Option<string>, httpMethod: Option<string>) {
    Truthy(body)
  }
}
