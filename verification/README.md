# OpenSSL TLS stream adapter: byte-moving core

This project models the byte-moving logic of the mongo-c-driver OpenSSL TLS
stream (`src/mongoc/mongoc-stream-tls-openssl.c`) and proves properties of
the model. It covers:

- **The write coalescing engine** (`_mongoc_stream_tls_openssl_writev`).
  The caller's iovec fragments are walked with a 4096-byte scratch buffer.
  Each resulting chunk goes to the per-write step, and the walk stops at the
  first short or failed write.
- **The per-write deadline step** (`_mongoc_stream_tls_openssl_write`).
  A millisecond budget becomes an expiry instant on the monotonic clock.
  After each positive write, the budget left is written back to
  `timeout_msec`.
- **The read driver** (`_mongoc_stream_tls_openssl_readv`).
  It fills the iovec entries in order with engine reads until `min_bytes`
  bytes have arrived. A failure and end of stream both return -1 and leave
  `errno` alone. Only the current read decides a timeout: an empty read
  after the deadline returns -1 with `ETIMEDOUT`, even when earlier reads
  already stored bytes. A non-empty read after the deadline is stored, and
  the budget becomes 0.
  When every entry fills before `min_bytes` bytes arrive, it returns the
  total capacity.
- **The forced handshake's outcome** (`mongoc_stream_tls_openssl_do_handshake`).
  It decides the result and `errno` from the engine's handshake result.
- **The stream's deadline field at creation** (`mongoc_stream_tls_openssl_new`).

The OpenSSL engine, the monotonic clock and `errno` are inputs:

- **Writes.** Each engine write is answered by a `WriteReply`. It carries the
  write's result and the clock readings taken before and after the call.
- **Reads.** Each engine read is answered by a `ReadReply`. It carries the
  bytes (possibly none), the retry flag and the clock reading after the
  read, or it is a failure.
- **readv's entry.** The clock reading on entry is a parameter.
- **errno.** It is an explicit input and output.

Modules:

- `Bytes`: bytes, and iovec lists laid end to end (`Flatten`).
- `Deadline`: the expiry instant, the budget left, and one engine write with
  its deadline bookkeeping.
- `WritePlan`: a reference definition of the chunks the writev sends when
  every write is accepted in full (`Plan`, via `Drain`). It carries the
  content, shape and ordering lemmas.
- `WriteEngine`: the writev itself, as loops over the fragments. It is
  proved to issue the plan's chunks in order and to stop as the source does.
- `ReadDriver`: the readv, as loops over the entries.
- `TlsStream`: stream creation and the forced handshake.

Where a plain reading of the routing rule and the code differ, the model
follows the code:

- Fragments of 10, 4070 and 50 bytes are sent as 4096 then 34 bytes, not as
  4080 then 50. The last fragment is copied into the buffer because the
  buffer already holds bytes, and the buffer is sent when it becomes full.
- A fragment of 4096 bytes or more is only written straight through when the
  buffer is empty. With 10 bytes buffered, fragments of 10, 5000 and 10
  bytes go out as a full 4096-byte buffer and a final flush of 924 bytes.
  No chunk is written through.
- The readv's header comment promises 0 on end of stream. The code returns
  -1 for it, as for a failure (`ReadDriver.EndOfStreamReadsMinusOne`).
- The writev's header comment promises -1 on failure. The code returns the
  bytes accepted before a failed write inside the loop, so a single fragment
  whose one write fails gives 0 (`WriteEngine.FirstWriteFailureReturnsZero`).
  Only a failed final flush returns a negative value.

## Model

| member | source | states |
|---|---|---|
| Deadline.Expire | src/mongoc/mongoc-stream-tls-openssl.c:201-203 | A negative timeout gives the unbounded sentinel 0. Otherwise the expiry lies exactly `timeout_msec * 1000` microseconds after the start reading. For a positive clock reading, the deadline is bounded exactly when the timeout is not negative. |
| Deadline.Remaining | src/mongoc/mongoc-stream-tls-openssl.c:213-224 | The budget left is never negative and is 0 once the deadline has passed. Before that it is the whole number of milliseconds left, rounded down. |
| Deadline.RemainingAtStart | src/mongoc/mongoc-stream-tls-openssl.c:201-224 | Taking the budget left at the start reading gives back the caller's timeout: `Remaining` undoes `Expire`. |
| Deadline.RemainingShrinks | src/mongoc/mongoc-stream-tls-openssl.c:213-224 | As the clock runs forward, the budget left never grows. |
| Deadline.WriteStep | src/mongoc/mongoc-stream-tls-openssl.c:186-228 | The engine's result is returned unchanged. A result of 0 or less, or a negative timeout, leaves `timeout_msec` alone. A bounded budget never goes negative and never grows while the clock runs forward. After a positive write it becomes 0 once the deadline has passed, and otherwise the milliseconds left before the deadline. |
| WritePlan.PlanContent | src/mongoc/mongoc-stream-tls-openssl.c:287-362 | Content preservation: the chunks of the plan carry exactly the fragments' bytes, in order. |
| WritePlan.PlanShape | src/mongoc/mongoc-stream-tls-openssl.c:287-362 | Every chunk is non-empty. A buffer flushed inside the loop holds exactly 4096 bytes. The trailing flush holds 1 to 4095 bytes and only comes last. A chunk written through is the untouched end of its fragment, and is at least 4096 bytes long or comes from the last fragment. |
| WritePlan.ThroughSendsEverythingBefore | src/mongoc/mongoc-stream-tls-openssl.c:291-322 | A chunk written straight from fragment `j` is never overtaken by buffered bytes. When it is sent, the chunks so far carry exactly fragments 0..j. |
| WritePlan.SmallWriteIsOneCall | src/mongoc/mongoc-stream-tls-openssl.c:287-362 | Fragments totalling 1 to 4096 bytes reach the engine in a single write carrying all of them. |
| WritePlan.TenThenFillThenFifty | src/mongoc/mongoc-stream-tls-openssl.c:291-322 | For fragments of 10, 4070 and 50 bytes, the writes are a full 4096-byte buffer, then the last 34 bytes of the third fragment written through. |
| WritePlan.LargeFragmentAfterBufferedBytes | src/mongoc/mongoc-stream-tls-openssl.c:291-355 | For fragments of 10, 5000 and 10 bytes, the buffered first fragment pulls the large one into the buffer. The writes are a full buffer and a trailing flush, with nothing written through. |
| WriteEngine.Route | src/mongoc/mongoc-stream-tls-openssl.c:290-322 | The routing rule. The remainder is written through exactly when the buffer is empty and this is the last fragment or the remainder is at least 4096 bytes. Otherwise as much as fits is copied, and a buffer that becomes full is sent. Each step is exactly one step of the reference plan, and the buffer stays below 4096 bytes between steps. |
| WriteEngine.SendStep | src/mongoc/mongoc-stream-tls-openssl.c:290-348 | One step of the walk routes the next bytes and sends the chunk that becomes due, which is always the next chunk of the plan. A failed write stops the walk without adding to the result. A short write adds its count and stops the walk. |
| WriteEngine.WalkFragment | src/mongoc/mongoc-stream-tls-openssl.c:290-349 | Walking one fragment issues the next chunks of the plan in order. It ends with the fragment consumed, or with a short or failed write that stops the walk. |
| WriteEngine.Walk | src/mongoc/mongoc-stream-tls-openssl.c:287-350 | The fragment loop keeps the walk's bookkeeping: chunks issued match the plan and the replies, none short so far, and the result is the sum of the accepted bytes. |
| WriteEngine.FlushTail | src/mongoc/mongoc-stream-tls-openssl.c:352-362 | Bytes still buffered after the last fragment go out in one final write. A negative result from it becomes the result. |
| WriteEngine.Conclude | src/mongoc/mongoc-stream-tls-openssl.c:287-368 | However the walk ended, the writev's promises hold (see `Writev`), including the chaining of `timeout_msec` from each engine write to the next. |
| WriteEngine.FailedFlushReturnsItsResult | src/mongoc/mongoc-stream-tls-openssl.c:287-358 | Two one-byte fragments go out as one final flush. When it fails with -1, the writev returns -1. |
| WriteEngine.FirstWriteFailureReturnsZero | src/mongoc/mongoc-stream-tls-openssl.c:241-336 | A single fragment is written straight through. When that write fails, the writev returns 0, not -1. |
| WriteEngine.Writev | src/mongoc/mongoc-stream-tls-openssl.c:249-369 | The calls issued are the plan's chunks in order, and every call but the last was accepted in full. The walk ends early only after a short or failed write. A failed write inside the loop returns the bytes accepted before it. A short write returns the accepted count. Only a failed trailing flush returns a negative value, and it returns that flush's own result. The result never exceeds the total length when no write over-reports. If every write is accepted in full, all chunks are sent, they carry the fragments' bytes in order, and the result is the total length. `timeout_msec` starts from the caller's value and keeps it when no call is made. Each call runs with the budget the previous engine write left, and the final value is what the last write left. It is never changed when unbounded, and otherwise never goes negative nor grows while the clock runs forward. |
| ReadDriver.ReadOnce | src/mongoc/mongoc-stream-tls-openssl.c:420-469 | One engine read is issued only while the current entry has room, and asks for the rest of it. A negative read, or an empty read without retry, ends with -1. An empty read after the deadline ends with -1 and `ETIMEDOUT`. A positive read after the deadline is stored, and the budget becomes 0. The read returns once `min_bytes` have arrived. |
| ReadDriver.FillEntry | src/mongoc/mongoc-stream-tls-openssl.c:417-470 | One entry is filled from its first byte, read after read, unless a read ends the readv; no read is issued once it is full. |
| ReadDriver.FillAll | src/mongoc/mongoc-stream-tls-openssl.c:413-471 | The entry loop ends in one of the readv's outcomes (failure, end of stream, timeout, `min_bytes` reached, every entry full, or no further reply) with the entries, no read issued after they are full, the bytes read and the deadline bookkeeping as `Readv` states them. |
| ReadDriver.Readv | src/mongoc/mongoc-stream-tls-openssl.c:390-472 | The entries keep their shape and hold the bytes read, contiguously from the first entry on, with the rest untouched. Every reply answered a read issued while the entries had room, so no read follows the last byte of the last entry. Every reply before the last fitted the rest of its entry, ended nothing and left the count below `min_bytes`. The same holds for the last reply when the outcome is undetermined, so a run that reaches `min_bytes` is never undetermined. The outcome is undetermined only while the entries still have room, and when they have any room at least one read is issued. On a non-negative result the last reply also fitted its entry. The result is -1 exactly when the last read failed, hit end of stream or timed out; otherwise it is the bytes stored, at least `min_bytes` unless every entry is full. Of the readv's own statements, only a timeout sets `errno`, to `ETIMEDOUT`. `timeout_msec` stays as given when unbounded, and as given when no read was issued. A bounded one is never negative and never above the caller's value. After a read that lets the readv go on, it is the budget left at that read's clock reading. A read that ends the readv returns before the field is updated, so the field keeps the value the previous read left, or the caller's value after a first read. |
| ReadDriver.TwoBytesReachMinimum | src/mongoc/mongoc-stream-tls-openssl.c:417-460 | Two one-byte reads into a three-byte entry with `min_bytes` 2 return 2 and leave the third byte untouched. |
| ReadDriver.EndOfStreamReadsMinusOne | src/mongoc/mongoc-stream-tls-openssl.c:382-434 | An empty read without retry returns -1 and leaves `errno` alone, although the header comment promises 0 on end of stream. |
| ReadDriver.FullEntriesReturnCapacity | src/mongoc/mongoc-stream-tls-openssl.c:417-471 | A one-byte entry with `min_bytes` 5 is filled by the first read; the loops end and the readv returns 1 without a second read. |
| ReadDriver.NoReadOnceEntriesAreFull | src/mongoc/mongoc-stream-tls-openssl.c:417-471 | A one-byte entry with `min_bytes` 5 is filled by the first read; a failure the engine would report next is never asked for, and the readv returns 1. |
| ReadDriver.NoTimeoutOnceEntriesAreFull | src/mongoc/mongoc-stream-tls-openssl.c:417-471 | The same entry under a 100 ms deadline: a late empty reply that would time out a next read is never asked for, and the readv returns 1. |
| ReadDriver.EmptyEntryIssuesNoRead | src/mongoc/mongoc-stream-tls-openssl.c:417-471 | A single empty entry gets no read at all, even with `min_bytes` 0, and the readv returns 0. |
| ReadDriver.FailedReadAtZeroMinimum | src/mongoc/mongoc-stream-tls-openssl.c:417-434 | With `min_bytes` 0, a non-empty entry still gets one read, and a failed read returns -1. |
| TlsStream.New | src/mongoc/mongoc-stream-tls-openssl.c:666-730 | Creation fails exactly when one of the three engine objects cannot be made. A new stream keeps the caller's certificate policy and starts with no deadline. |
| TlsStream.DoHandshake | src/mongoc/mongoc-stream-tls-openssl.c:534-563 | The handshake succeeds exactly when the engine reports 1, and the stream's `timeout_msec` becomes the caller's value. With timeout 0, or an error number already set, `errno` is left alone. Any other failure sets `errno` to `ETIMEDOUT`. |
| TlsStream.ErrnoSetOnlyOnTimeout | src/mongoc/mongoc-stream-tls-openssl.c:544-562 | The handshake changes `errno` exactly when it fails with a non-zero timeout while `errno`, as the engine's handshake left it, is 0. It then changes it to `ETIMEDOUT`. |

## Left out

- The OpenSSL engine (`BIO_write`, `BIO_read`, `BIO_flush`, `BIO_do_handshake`, `BIO_should_retry`/`_read`/`_write`, `BIO_get_ssl`): its results are inputs (reply lists, retry flags, the handshake result). Record layer and handshake protocol are foreign code.
- The BIO method table and the shim callbacks: their implementations live in another file, which is not part of this model.
- `_mongoc_ssl_ctx_new` and `_mongoc_ssl_check_cert` (and `mongoc_stream_tls_openssl_check_cert`, which only delegates): certificate and context handling is foreign code.
- TlsStream.New: allocation and release order in creation and in `_mongoc_stream_tls_openssl_destroy` are not modelled, since their correctness rests on OpenSSL reference counting. Creation is reduced to its outcome and its deadline field. The failure path after the shim filter cannot be made frees the SSL filter but does not call `SSL_CTX_free`, unlike the path before it; whether this leaks depends on those reference counts.
- The forwarding functions close, flush, setsockopt, get_base_stream, check_closed, should_retry, should_read and should_write: they only call through.
- The process-wide counters (streams active, egress, ingress, timeouts): observability only.
- Deadline.Expire: `timeout_msec * 1000UL` is computed as a 64-bit `unsigned long`. Where `unsigned long` has 32 bits (Windows, 32-bit Linux), timeouts above 4294967 ms wrap; that wrap is not modelled.
- Changes to `errno` made inside the engine calls (`BIO_read`, `BIO_do_handshake` and the shim I/O under them) are not modelled. `errno` is one input, taken as the engine calls leave it; the model's errno promises are about the stream code's own assignments.
- The real monotonic clock: readings are inputs. Windows' `WSAETIMEDOUT` is not modelled; `ETIMEDOUT` is 110, its Linux value.
- The `size_t`/`int` casts: the length handed to `BIO_read` and `BIO_write` is cast to `int`, and entries or chunks of 2^31 bytes or more are not modelled (lengths are unbounded integers).
- ReadDriver.Readv: with no deadline (or a clock that never reaches it) and `min_bytes` above 0, a run of empty reads with retry set never ends in the source. The model consumes one reply per read, and when the replies run out the outcome is `Undetermined`. A reply holding more bytes than its read asked for (which the engine never produces) is `Undetermined` as well. Termination of the source loop is not claimed.
- WriteEngine.Writev: it requires one reply per chunk of the plan, which is the most the walk can issue. It also requires at least one fragment, as the source asserts.
- ReadDriver.Readv: it requires at least one entry, as the source asserts (`BSON_ASSERT (iovcnt)`).
- The counter and tracing calls in writev and the per-write step: they do not affect results.
