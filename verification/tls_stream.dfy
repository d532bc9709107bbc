/**
 * The stream record's deadline field at creation, and the forced handshake
 * (`mongoc_stream_tls_openssl_new`, `mongoc_stream_tls_openssl_do_handshake`).
 * The engine's constructors and its handshake are oracles: their outcomes
 * are inputs.
 */
module TlsStream {
  import opened Deadline

  /** The stream fields the byte-moving operations read: the deadline budget and the certificate policy. */
  datatype Stream = Stream(timeoutMsec: int, weakCertValidation: bool)

  datatype Option<T> = None | Some(value: T)

  /**
   * Creating a stream: it fails (NULL) when the SSL context, the SSL filter
   * or the shim filter cannot be created; otherwise the new stream takes the
   * caller's certificate policy and starts with no deadline (`timeout_msec`
   * is -1), so an operation that does not set the field first waits as long as it takes.
   */
  function New(weakCertValidation: bool, contextMade: bool, sslFilterMade: bool, shimMade: bool): (s: Option<Stream>)
    ensures s.Some? <==> contextMade && sslFilterMade && shimMade
    ensures s.Some? ==> s.value.weakCertValidation == weakCertValidation
    ensures s.Some? ==> s.value.timeoutMsec < 0 && forall now :: Expire(s.value.timeoutMsec, now) == Unbounded
  {
    if !contextMade || !sslFilterMade || !shimMade then None
    else Some(Stream(-1, weakCertValidation))
  }

  /** The outcome of a forced handshake: success, `errno` afterwards, and the stream's `timeout_msec`. */
  datatype Handshake = Handshake(done: bool, errno: int, timeoutMsec: int)

  /**
   * A forced handshake with the caller's `timeoutMsec`, given the engine's
   * handshake result `engine` and the thread's `errno` as that handshake
   * left it (it is read after the engine call). It succeeds
   * exactly when the engine reports 1. A failure with timeout 0 (a
   * non-blocking attempt) leaves `errno` alone; any other failure reports
   * a timeout through `errno`, unless an error number is already set there.
   */
  function DoHandshake(timeoutMsec: int, engine: int, errno: int): (h: Handshake)
    ensures h.timeoutMsec == timeoutMsec
    ensures h.done <==> engine == 1
    ensures h.done || timeoutMsec == 0 || errno != 0 ==> h.errno == errno
    ensures !h.done && timeoutMsec != 0 ==> h.errno != 0
    ensures h.errno == errno || h.errno == TimedOutErrno
  {
    if engine == 1 then Handshake(true, errno, timeoutMsec)
    else if timeoutMsec == 0 then Handshake(false, errno, timeoutMsec)
    else if errno == 0 then Handshake(false, TimedOutErrno, timeoutMsec)
    else Handshake(false, errno, timeoutMsec)
  }

  /**
   * The handshake changes `errno` exactly when it fails with a non-zero
   * timeout while `errno` (as the engine's handshake left it) is 0, and then
   * to the timeout code.
   */
  lemma ErrnoSetOnlyOnTimeout(timeoutMsec: int, engine: int, errno: int)
    ensures var h := DoHandshake(timeoutMsec, engine, errno);
            && (h.errno != errno <==> engine != 1 && timeoutMsec != 0 && errno == 0)
            && (h.errno != errno ==> h.errno == TimedOutErrno)
  {
  }
}
