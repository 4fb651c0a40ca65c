/**
 * The fixed vocabulary of the server: methods, status codes and their
 * reason phrases, the default index file, the extension-to-MIME table, and
 * the view of the filesystem that the resolver and the header builder consult.
 */
module Http {

  newtype byte = x: int | 0 <= x < 256

  const GET := "GET"
  const HEAD := "HEAD"

  /** The methods a worker serves; every other method is refused. */
  const ALLOWED_METHODS: seq<string> := [GET, HEAD]

  /** The status vocabulary; `Forbidden` is part of it but no path produces it. */
  datatype Status = OK | Forbidden | NotFound | MethodNotAllowed {
    function Code(): nat {
      match this
      case OK => 200
      case Forbidden => 403
      case NotFound => 404
      case MethodNotAllowed => 405
    }
  }

  /** Reason phrase for each status code. */
  const MESSAGES: map<nat, string> := map[
    200 := "OK",
    403 := "Forbidden",
    404 := "Not Found",
    405 := "Method Not Allowed"
  ]

  /** The reason phrase of a status: every status has one. */
  function Reason(s: Status): (m: string)
    ensures s.Code() in MESSAGES && m == MESSAGES[s.Code()] && m != ""
  {
    MESSAGES[s.Code()]
  }

  const DEFAULT_INDEX := "index.html"

  /** MIME type by extension (without its dot); the lookup is case-sensitive. */
  const CONTENT_TYPES: map<string, string> := map[
    "html" := "text/html",
    "css" := "text/css",
    "js" := "application/javascript",
    "jpg" := "image/jpeg",
    "jpeg" := "image/jpeg",
    "png" := "image/png",
    "gif" := "image/gif",
    "swf" := "application/x-shockwave-flash"
  ]

  /**
   * What `isfile`, `isdir`, `getsize` and `open` see: the regular files
   * with their contents (a path is a file exactly when it is a key) and the
   * directories, both keyed by the path string exactly as it is passed.
   */
  datatype FileSystem = FileSystem(files: map<string, seq<byte>>, dirs: set<string>) {
    /** The empty path names neither a file nor a directory: `isfile("")` and `isdir("")` are false on POSIX. */
    predicate Valid() {
      "" !in files && "" !in dirs
    }
  }
}
