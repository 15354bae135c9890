/** The error taxonomy of the adapter and the translation of object-store client errors into
    POSIX error numbers (gcp/gcs/__init__.py: ERRNO_MAP, lookup_gcserror, translate_gcs_error). */
module GcsErrors {
  import opened Wrappers

  /** The errno values the adapter raises. */
  datatype Errno = EACCES | ENOENT | EINVAL | ENOTDIR | EEXIST

  /** The numbers of these errno values on Linux. */
  function Code(e: Errno): (n: int)
    ensures n > 0
  {
    match e
    case EACCES => 13
    case ENOENT => 2
    case EINVAL => 22
    case ENOTDIR => 20
    case EEXIST => 17
  }

  /** The exceptions that can leave the adapter's operations. */
  datatype Error =
    | ClientError(status: int, reason: string)  // raised by the object-store client
    | IoError(errno: Errno, detail: string)     // IOError(errno, text)
    | ValueError
    | NotImplementedError
    | RuntimeError
    | AttributeError
    | TypeError

  type Outcome<T> = Result<T, Error>

  /** ERRNO_MAP: only 403 and 404 have their own errno. */
  function ErrnoMap(status: int): Option<Errno> {
    if status == 403 then Some(EACCES)
    else if status == 404 then Some(ENOENT)
    else None
  }

  /** lookup_gcserror: the mapped errno, EINVAL by default, carrying the client's reason. */
  function LookupGcsError(status: int, reason: string): (e: Error)
    ensures e.IoError? && e.detail == reason
    ensures status == 403 <==> e.errno == EACCES
    ensures status == 404 <==> e.errno == ENOENT
    ensures status != 403 && status != 404 <==> e.errno == EINVAL
  {
    match ErrnoMap(status)
    case Some(n) => IoError(n, reason)
    case None => IoError(EINVAL, reason)
  }

  /** translate_gcs_error: a client error becomes the IOError lookup_gcserror builds;
      every other outcome passes through unchanged. */
  function Translate<T>(r: Outcome<T>): (t: Outcome<T>)
    ensures r.Success? ==> t == r
    ensures r.Failure? && !r.error.ClientError? ==> t == r
    ensures r.Failure? && r.error.ClientError? ==>
              t == Failure(LookupGcsError(r.error.status, r.error.reason))
  {
    if r.Failure? && r.error.ClientError? then Failure(LookupGcsError(r.error.status, r.error.reason))
    else r
  }

  /** No client error escapes a translated operation, and translating twice changes nothing. */
  lemma TranslateIdempotent<T>(r: Outcome<T>)
    ensures !(Translate(r).Failure? && Translate(r).error.ClientError?)
    ensures Translate(Translate(r)) == Translate(r)
  {
  }
}
