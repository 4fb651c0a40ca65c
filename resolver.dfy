/**
 * The static resolver (`RequestWorker.process_request`): an ordered decision
 * table over the request method and the filesystem.
 */
module StaticResolver {
  import opened Wrappers
  import opened Http
  import opened RequestParser
  import PosixPath

  /** The status and, when one is served, the path of the body file. */
  datatype Resolution = Resolution(status: Status, body: Option<string>)

  /** `method in allowed_methods`: the unparsed request has no method and is never allowed. */
  predicate IsAllowed(req: Option<Request>) {
    req.Some? && req.value.httpMethod in ALLOWED_METHODS
  }

  /** The index file a directory would be served by. */
  function IndexOf(dir: string): string {
    PosixPath.Join(dir, DEFAULT_INDEX)
  }

  /**
   * Refuse anything but GET and HEAD; otherwise serve a regular file, else
   * the `index.html` of a directory, else report that nothing was found.
   */
  function Resolve(req: Option<Request>, fs: FileSystem): (r: Resolution)
    ensures r.status != Forbidden
    ensures r.status == MethodNotAllowed <==> !IsAllowed(req)
    ensures r.status == OK <==> r.body.Some?
    ensures r.body.Some? ==> r.body.value in fs.files
    ensures r.body.Some? ==>
      (r.body.value == req.value.pathFull
       || (req.value.pathFull in fs.dirs && r.body.value == IndexOf(req.value.pathFull)))
    ensures IsAllowed(req) && req.value.pathFull in fs.files ==> r == Resolution(OK, Some(req.value.pathFull))
    ensures IsAllowed(req) && req.value.pathFull !in fs.files
      && req.value.pathFull in fs.dirs && IndexOf(req.value.pathFull) in fs.files
      ==> r == Resolution(OK, Some(IndexOf(req.value.pathFull)))
    ensures IsAllowed(req) && req.value.pathFull !in fs.files
      && (req.value.pathFull !in fs.dirs || IndexOf(req.value.pathFull) !in fs.files)
      ==> r == Resolution(NotFound, None)
  {
    if !IsAllowed(req) then Resolution(MethodNotAllowed, None)
    else if req.value.pathFull in fs.files then Resolution(OK, Some(req.value.pathFull))
    else if req.value.pathFull in fs.dirs && IndexOf(req.value.pathFull) in fs.files then
      Resolution(OK, Some(IndexOf(req.value.pathFull)))
    else Resolution(NotFound, None)
  }

  /** A refused method is decided before any filesystem check: the filesystem does not matter. */
  lemma RefusalIgnoresFilesystem(req: Option<Request>, fs1: FileSystem, fs2: FileSystem)
    requires !IsAllowed(req)
    ensures Resolve(req, fs1) == Resolve(req, fs2) == Resolution(MethodNotAllowed, None)
  {
  }
}
