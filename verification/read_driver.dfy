/**
 * The read driver (`_mongoc_stream_tls_openssl_readv`): fills the caller's
 * iovec entries in order with engine reads (`BIO_read`), each asking for the
 * rest of the current entry, until at least `min_bytes` have arrived, the
 * entries are full, or a read fails, hits end of stream or times out.
 */
module ReadDriver {
  import opened Bytes
  import opened Deadline

  /**
   * What one engine read answered: some bytes (possibly none) together with
   * the engine's retry flag and the clock reading taken after the read, or a
   * negative result. The retry flag only matters for an empty read and the
   * clock reading only under a deadline, as in the source.
   */
  datatype ReadReply = Got(data: seq<byte>, retry: bool, now: int) | Failed

  /**
   * How a read ends: it returns `r`, or it is left undetermined because the
   * replies given ran out or one reply held more bytes than its read asked
   * for (which the engine never does).
   */
  datatype ReadvEnd = Returned(r: int) | Undetermined

  /** The bytes a reply delivers. */
  function Delivered(reply: ReadReply): (data: seq<byte>)
  {
    if reply.Got? then reply.data else []
  }

  /** The bytes a list of replies delivers, in order. */
  function Received(replies: seq<ReadReply>): (got: seq<byte>)
  {
    if |replies| == 0 then [] else Received(replies[..|replies| - 1]) + Delivered(replies[|replies| - 1])
  }

  /** An empty read, with the engine willing to retry, after the deadline passed. */
  predicate TimedOut(reply: ReadReply, expire: int)
  {
    reply.Got? && reply.data == [] && reply.retry && expire != Unbounded && expire - reply.now < 0
  }

  /** A reply that ends the read with -1: a failure, end of stream, or a timeout. */
  predicate Ends(reply: ReadReply, expire: int)
  {
    reply.Failed? || (reply.data == [] && !reply.retry) || TimedOut(reply, expire)
  }

  /**
   * The room a read at flat offset `n` of the entries asks for: the rest of
   * the entry holding offset `n`, empty entries skipped; 0 past the end.
   */
  function EntryRoom(iov: seq<seq<byte>>, n: nat): (room: nat)
  {
    if |iov| == 0 then 0
    else if n < |iov[0]| then |iov[0]| - n
    else EntryRoom(iov[1..], n - |iov[0]|)
  }

  /** The entries `dst` are shaped like `iov` and hold `got` in front of iov's untouched bytes. */
  ghost predicate Holds(iov: seq<seq<byte>>, dst: seq<seq<byte>>, got: seq<byte>)
  {
    && |dst| == |iov|
    && (forall k :: 0 <= k < |iov| ==> |dst[k]| == |iov[k]|)
    && |got| <= |Flatten(iov)|
    && Flatten(dst) == got + Flatten(iov)[|got|..]
  }

  /** One more reply's worth of bytes. */
  lemma ReceivedNext(replies: seq<ReadReply>, k: nat)
    requires k < |replies|
    ensures Received(replies[..k + 1]) == Received(replies[..k]) + Delivered(replies[k])
  {
    assert replies[..k + 1][..k] == replies[..k];
  }

  /** Offset `pos` of entry `i` is flat offset `|Flatten(iov[..i])| + pos`, with the rest of entry `i` as room. */
  lemma {:induction false} EntryRoomAt(iov: seq<seq<byte>>, i: nat, pos: nat)
    requires i < |iov| && pos < |iov[i]|
    ensures EntryRoom(iov, |Flatten(iov[..i])| + pos) == |iov[i]| - pos
  {
    if i > 0 {
      assert iov[..i][0] == iov[0];
      assert iov[..i][1..] == iov[1..][..i - 1];
      EntryRoomAt(iov[1..], i - 1, pos);
    }
  }

  /** The entries before `i + 1` lay out to those before `i` followed by entry `i`. */
  lemma EntryDone(iov: seq<seq<byte>>, i: nat)
    requires i < |iov|
    ensures |Flatten(iov[..i + 1])| == |Flatten(iov[..i])| + |iov[i]|
    ensures |Flatten(iov[..i + 1])| <= |Flatten(iov)|
  {
    assert iov[..i + 1] == iov[..i] + [iov[i]];
    FlattenAppend(iov[..i], [iov[i]]);
    assert iov == iov[..i + 1] + iov[i + 1..];
    FlattenAppend(iov[..i + 1], iov[i + 1..]);
  }

  /** Storing a read's bytes at offset `pos` of entry `i` extends what the entries hold. */
  lemma Store(iov: seq<seq<byte>>, dst: seq<seq<byte>>, got: seq<byte>, i: nat, pos: nat, data: seq<byte>)
    requires Holds(iov, dst, got)
    requires i < |iov| && pos + |data| <= |iov[i]|
    requires |got| == |Flatten(iov[..i])| + pos
    ensures Holds(iov, dst[i := dst[i][..pos] + data + dst[i][pos + |data|..]], got + data)
  {
    var dst' := dst[i := dst[i][..pos] + data + dst[i][pos + |data|..]];
    FlattenUpdate(dst, i, pos, data);
    SameShapeSameLength(dst[..i], iov[..i]);
    EntryDone(iov, i);
    var tail := Flatten(iov)[|got|..];
    assert Flatten(dst)[..|got|] == got;
    assert Flatten(dst)[|got| + |data|..] == tail[|data|..];
    assert tail[|data|..] == Flatten(iov)[|got| + |data|..];
    forall k | 0 <= k < |iov|
      ensures |dst'[k]| == |iov[k]|
    {
    }
  }

  /**
   * Reply `k` let the read go on: it answered a read issued while the
   * entries still had room, it did not end the read, it fitted the room its
   * read asked for, and the bytes so far were still fewer than `minBytes`.
   */
  predicate Continued(iov: seq<seq<byte>>, minBytes: nat, expire: int, replies: seq<ReadReply>, k: nat)
  {
    && k < |replies|
    && |Received(replies[..k])| < |Flatten(iov)|
    && !Ends(replies[k], expire)
    && |Delivered(replies[k])| <= EntryRoom(iov, |Received(replies[..k])|)
    && |Received(replies[..k + 1])| < minBytes
  }

  /** The read's bookkeeping between two engine reads, while none has ended it. */
  ghost predicate Reading(iov: seq<seq<byte>>, minBytes: nat, expire: int, replies: seq<ReadReply>,
                          i: nat, pos: nat, dst: seq<seq<byte>>, got: seq<byte>, used: nat)
  {
    && i <= |iov|
    && (i < |iov| ==> pos <= |iov[i]|)
    && (i == |iov| ==> pos == 0)
    && |got| == |Flatten(iov[..i])| + pos
    && Holds(iov, dst, got)
    && used <= |replies|
    && got == Received(replies[..used])
    && forall k :: 0 <= k < used ==> Continued(iov, minBytes, expire, replies, k)
  }

  /** How the `timeout_msec` field stands after the replies used so far. */
  ghost predicate BudgetRead(timeoutMsec: int, start: int, replies: seq<ReadReply>, used: nat, timeout: int)
  {
    && used <= |replies|
    && (timeoutMsec < 0 ==> timeout == timeoutMsec)
    && (timeoutMsec >= 0 ==> timeout >= 0)
    && (timeoutMsec >= 0 && start > 0
        && (forall k :: 0 <= k < used ==> replies[k].Got? ==> start <= replies[k].now) ==>
          timeout <= timeoutMsec)
    && (timeoutMsec >= 0 && start > 0 && used > 0 && !Ends(replies[used - 1], Expire(timeoutMsec, start)) ==>
          timeout == Remaining(Expire(timeoutMsec, start), replies[used - 1].now))
    && (used == 0 ==> timeout == timeoutMsec)
    && (timeoutMsec >= 0 && start > 0 && used > 0 && Ends(replies[used - 1], Expire(timeoutMsec, start)) ==>
          && (used == 1 ==> timeout == timeoutMsec)
          && (used > 1 && replies[used - 2].Got? ==>
                timeout == Remaining(Expire(timeoutMsec, start), replies[used - 2].now)))
  }

  /**
   * Everything a finished read promises, for the result `end`, the entries
   * `dst` after it, the bytes `got` it stored, the number `used` of replies
   * it consumed, and `errno` and `timeout_msec` afterwards.
   */
  ghost predicate Finished(iov: seq<seq<byte>>, minBytes: nat, timeoutMsec: int, start: int, errno: int,
                           replies: seq<ReadReply>, end: ReadvEnd, dst: seq<seq<byte>>, got: seq<byte>,
                           used: nat, errno': int, timeout: int)
  {
    var expire := Expire(timeoutMsec, start);
    && Holds(iov, dst, got)
    && used <= |replies|
    && got == Received(replies[..used])
    && (forall k :: 0 <= k < used - 1 ==> Continued(iov, minBytes, expire, replies, k))
    && (end.Returned? ==> end.r == -1 || end.r >= 0)
    && (end == Returned(-1) <==> used > 0 && Ends(replies[used - 1], expire))
    && (end.Returned? && end.r >= 0 ==>
          && end.r == |got|
          && (end.r >= minBytes || end.r == |Flatten(iov)|)
          && (used > 0 ==>
                && !Ends(replies[used - 1], expire)
                && |Delivered(replies[used - 1])| <= EntryRoom(iov, |Received(replies[..used - 1])|)))
    && (end.Returned? && |Flatten(iov)| > 0 ==> used > 0)
    && (used > 0 ==> |Received(replies[..used - 1])| < |Flatten(iov)|)
    && (end.Undetermined? ==>
          && |got| < |Flatten(iov)|
          && (used > 0 ==> Continued(iov, minBytes, expire, replies, used - 1))
          && (used == |replies| || (replies[used].Got? && |replies[used].data| > EntryRoom(iov, |got|))))
    && errno' == (if used > 0 && end == Returned(-1) && TimedOut(replies[used - 1], expire)
                  then TimedOutErrno else errno)
    && BudgetRead(timeoutMsec, start, replies, used, timeout)
  }

  /** Where the walk over one entry leaves the read: on to the next entry, or finished. */
  datatype Step = Go | Stop(end: ReadvEnd)

  /** The read is left undetermined when the replies run out or one overfills its read. */
  lemma Unsettled(iov: seq<seq<byte>>, minBytes: nat, timeoutMsec: int, start: int, errno: int,
                  replies: seq<ReadReply>, i: nat, pos: nat, dst: seq<seq<byte>>, got: seq<byte>,
                  used: nat, timeout: int)
    requires Reading(iov, minBytes, Expire(timeoutMsec, start), replies, i, pos, dst, got, used)
    requires i < |iov| && pos < |iov[i]|
    requires BudgetRead(timeoutMsec, start, replies, used, timeout)
    requires used == |replies| || (replies[used].Got? && |replies[used].data| > EntryRoom(iov, |got|))
    ensures Finished(iov, minBytes, timeoutMsec, start, errno, replies, Undetermined, dst, got, used, errno, timeout)
  {
    EntryDone(iov, i);
    if used > 0 {
      assert Continued(iov, minBytes, Expire(timeoutMsec, start), replies, used - 1);
    }
  }

  /** A failed read, end of stream, or a timeout ends the read with -1. */
  lemma Failing(iov: seq<seq<byte>>, minBytes: nat, timeoutMsec: int, start: int, errno: int,
                replies: seq<ReadReply>, i: nat, pos: nat, dst: seq<seq<byte>>, got: seq<byte>,
                used: nat, timeout: int)
    requires Reading(iov, minBytes, Expire(timeoutMsec, start), replies, i, pos, dst, got, used)
    requires BudgetRead(timeoutMsec, start, replies, used, timeout)
    requires i < |iov| && pos < |iov[i]|
    requires used < |replies| && Ends(replies[used], Expire(timeoutMsec, start))
    ensures var errno' := if TimedOut(replies[used], Expire(timeoutMsec, start)) then TimedOutErrno else errno;
            Finished(iov, minBytes, timeoutMsec, start, errno, replies, Returned(-1), dst, got, used + 1, errno', timeout)
  {
    ReceivedNext(replies, used);
    EntryDone(iov, i);
    assert Delivered(replies[used]) == [];
    if used > 0 {
      assert Continued(iov, minBytes, Expire(timeoutMsec, start), replies, used - 1);
    }
  }

  /**
   * A read that fitted its room and did not end the read: its bytes are
   * stored, and the read either has enough or goes on.
   */
  lemma Stored(iov: seq<seq<byte>>, minBytes: nat, timeoutMsec: int, start: int, errno: int,
               replies: seq<ReadReply>, i: nat, pos: nat, dst: seq<seq<byte>>, got: seq<byte>,
               used: nat, timeout: int)
    requires Reading(iov, minBytes, Expire(timeoutMsec, start), replies, i, pos, dst, got, used)
    requires i < |iov| && pos < |iov[i]|
    requires used < |replies| && replies[used].Got? && !Ends(replies[used], Expire(timeoutMsec, start))
    requires |replies[used].data| <= |iov[i]| - pos
    requires BudgetRead(timeoutMsec, start, replies, used + 1, timeout)
    ensures var data := replies[used].data;
            var dst' := dst[i := dst[i][..pos] + data + dst[i][pos + |data|..]];
            && (|got + data| >= minBytes ==>
                  Finished(iov, minBytes, timeoutMsec, start, errno, replies, Returned(|got + data|),
                           dst', got + data, used + 1, errno, timeout))
            && (|got + data| < minBytes ==>
                  Reading(iov, minBytes, Expire(timeoutMsec, start), replies, i, pos + |data|, dst', got + data, used + 1))
  {
    var data := replies[used].data;
    ReceivedNext(replies, used);
    EntryRoomAt(iov, i, pos);
    EntryDone(iov, i);
    Store(iov, dst, got, i, pos, data);
    var expire := Expire(timeoutMsec, start);
    if |got + data| < minBytes {
      assert Continued(iov, minBytes, expire, replies, used);
    }
  }

  /**
   * One engine read at offset `pos` of entry `i`, asking for the rest of the
   * entry; `Go` when the read goes on from offset `pos'`.
   */
  method ReadOnce(iov: seq<seq<byte>>, minBytes: nat, timeoutMsec: int, start: int, errno: int,
                  replies: seq<ReadReply>, i: nat, pos: nat, dst: seq<seq<byte>>, got: seq<byte>,
                  used: nat, timeout: int)
    returns (step: Step, pos': nat, dst': seq<seq<byte>>, got': seq<byte>, used': nat, errno': int, timeout': int)
    requires i < |iov| && pos < |iov[i]|
    requires Reading(iov, minBytes, Expire(timeoutMsec, start), replies, i, pos, dst, got, used)
    requires BudgetRead(timeoutMsec, start, replies, used, timeout)
    ensures step.Go? ==>
              && Reading(iov, minBytes, Expire(timeoutMsec, start), replies, i, pos', dst', got', used')
              && BudgetRead(timeoutMsec, start, replies, used', timeout')
              && errno' == errno && used' == used + 1
    ensures step.Stop? ==>
              Finished(iov, minBytes, timeoutMsec, start, errno, replies, step.end, dst', got', used', errno', timeout')
  {
    dst', got', used', errno', timeout', pos' := dst, got, used, errno, timeout, pos;
    var expire := Expire(timeoutMsec, start);
    EntryRoomAt(iov, i, pos);
    EntryDone(iov, i);
    if used == |replies| || (replies[used].Got? && |replies[used].data| > |iov[i]| - pos) {
      Unsettled(iov, minBytes, timeoutMsec, start, errno, replies, i, pos, dst, got, used, timeout);
      step := Stop(Undetermined);
      return;
    }
    var reply := replies[used];
    used' := used + 1;
    if reply.Failed? || (reply.data == [] && !reply.retry) {
      Failing(iov, minBytes, timeoutMsec, start, errno, replies, i, pos, dst, got, used, timeout);
      step := Stop(Returned(-1));
      return;
    }
    if expire != Unbounded {
      if expire - reply.now < 0 {
        if reply.data == [] {
          Failing(iov, minBytes, timeoutMsec, start, errno, replies, i, pos, dst, got, used, timeout);
          errno' := TimedOutErrno;
          step := Stop(Returned(-1));
          return;
        }
        timeout' := 0;
      } else {
        timeout' := Remaining(expire, reply.now);
      }
    }
    Stored(iov, minBytes, timeoutMsec, start, errno, replies, i, pos, dst, got, used, timeout');
    dst' := dst[i := dst[i][..pos] + reply.data + dst[i][pos + |reply.data|..]];
    got' := got + reply.data;
    if |got'| >= minBytes {
      step := Stop(Returned(|got'|));
      return;
    }
    pos' := pos + |reply.data|;
    step := Go;
  }

  /**
   * The inner loop of the read: entry `i` from its first byte, one engine
   * read per reply, each asking for the rest of the entry.
   */
  method FillEntry(iov: seq<seq<byte>>, minBytes: nat, timeoutMsec: int, start: int, errno: int,
                   replies: seq<ReadReply>, i: nat, dst: seq<seq<byte>>, got: seq<byte>, used: nat, timeout: int)
    returns (step: Step, dst': seq<seq<byte>>, got': seq<byte>, used': nat, errno': int, timeout': int)
    requires i < |iov|
    requires Reading(iov, minBytes, Expire(timeoutMsec, start), replies, i, 0, dst, got, used)
    requires BudgetRead(timeoutMsec, start, replies, used, timeout)
    ensures step.Go? ==>
              && Reading(iov, minBytes, Expire(timeoutMsec, start), replies, i + 1, 0, dst', got', used')
              && BudgetRead(timeoutMsec, start, replies, used', timeout')
              && errno' == errno
    ensures step.Stop? ==>
              Finished(iov, minBytes, timeoutMsec, start, errno, replies, step.end, dst', got', used', errno', timeout')
  {
    dst', got', used', errno', timeout' := dst, got, used, errno, timeout;
    var expire := Expire(timeoutMsec, start);
    var pos: nat := 0;
    while pos < |iov[i]|
      invariant Reading(iov, minBytes, expire, replies, i, pos, dst', got', used')
      invariant BudgetRead(timeoutMsec, start, replies, used', timeout')
      invariant errno' == errno
      decreases |replies| - used'
    {
      step, pos, dst', got', used', errno', timeout' :=
        ReadOnce(iov, minBytes, timeoutMsec, start, errno, replies, i, pos, dst', got', used', timeout');
      if step.Stop? {
        return;
      }
    }
    EntryDone(iov, i);
    step := Go;
  }

  /** Filling every entry ends the read with the bytes stored, all of them. */
  lemma Filled(iov: seq<seq<byte>>, minBytes: nat, timeoutMsec: int, start: int, errno: int,
               replies: seq<ReadReply>, dst: seq<seq<byte>>, got: seq<byte>, used: nat, timeout: int)
    requires Reading(iov, minBytes, Expire(timeoutMsec, start), replies, |iov|, 0, dst, got, used)
    requires BudgetRead(timeoutMsec, start, replies, used, timeout)
    ensures Finished(iov, minBytes, timeoutMsec, start, errno, replies, Returned(|got|), dst, got, used, errno, timeout)
  {
    assert iov[..|iov|] == iov;
    assert replies[..0] == [];
    if used > 0 {
      assert Continued(iov, minBytes, Expire(timeoutMsec, start), replies, used - 1);
    }
  }

  /** The outer loop of the read: entry after entry, until one read ends it or all are full. */
  method FillAll(iov: seq<seq<byte>>, minBytes: nat, timeoutMsec: int, start: int, errno: int,
                 replies: seq<ReadReply>)
    returns (end: ReadvEnd, dst: seq<seq<byte>>, got: seq<byte>, used: nat, errno': int, timeout: int)
    ensures Finished(iov, minBytes, timeoutMsec, start, errno, replies, end, dst, got, used, errno', timeout)
  {
    dst, got, used, errno' := iov, [], 0, errno;
    timeout := timeoutMsec;
    var i := 0;
    var step := Go;
    assert Flatten(iov)[0..] == Flatten(iov);
    while i < |iov| && step.Go?
      invariant i <= |iov|
      invariant step.Go? ==>
                  && Reading(iov, minBytes, Expire(timeoutMsec, start), replies, i, 0, dst, got, used)
                  && BudgetRead(timeoutMsec, start, replies, used, timeout)
                  && errno' == errno
      invariant step.Stop? ==>
                  Finished(iov, minBytes, timeoutMsec, start, errno, replies, step.end, dst, got, used, errno', timeout)
      decreases |iov| - i
    {
      step, dst, got, used, errno', timeout :=
        FillEntry(iov, minBytes, timeoutMsec, start, errno, replies, i, dst, got, used, timeout);
      i := i + 1;
    }
    if step.Go? {
      Filled(iov, minBytes, timeoutMsec, start, errno, replies, dst, got, used, timeout);
      end := Returned(|got|);
    } else {
      end := step.end;
    }
  }

  /**
   * Reads into the entries `iov` until at least `minBytes` bytes have
   * arrived, with the caller's `timeoutMsec`. `start` is the clock reading
   * taken on entry, `errno` the thread's error number as the engine's reads
   * leave it, and engine read `k` is answered by `replies[k]`. Returns how
   * the read ended, the entries after it, the bytes it stored, how many
   * replies it consumed, and `errno` and the stream's `timeout_msec` afterwards.
   */
  method Readv(iov: seq<seq<byte>>, minBytes: nat, timeoutMsec: int, start: int, errno: int,
               replies: seq<ReadReply>)
    returns (end: ReadvEnd, dst: seq<seq<byte>>, got: seq<byte>, used: nat, errno': int, timeout: int)
    requires |iov| > 0
    // The entries keep their shape; they hold the bytes read, in order,
    // from the first byte of the first entry on, and nothing else changes.
    ensures |dst| == |iov| && forall k :: 0 <= k < |iov| ==> |dst[k]| == |iov[k]|
    ensures |got| <= |Flatten(iov)| && Flatten(dst) == got + Flatten(iov)[|got|..]
    ensures used <= |replies| && got == Received(replies[..used])
    // Every reply before the last let the read go on: it answered a read
    // issued while the entries had room, it was no failure, end of stream
    // or timeout, it held no more bytes than the rest of the current entry,
    // and still fewer than `minBytes` bytes had arrived in all.
    ensures forall k :: 0 <= k < used - 1 ==> Continued(iov, minBytes, Expire(timeoutMsec, start), replies, k)
    // The result: -1 exactly when the last read failed, hit end of stream
    // or timed out; otherwise the bytes stored, which reach `minBytes`
    // unless every entry is full.
    ensures end.Returned? ==> end.r == -1 || end.r >= 0
    ensures end == Returned(-1) <==> 0 < used <= |replies| && Ends(replies[used - 1], Expire(timeoutMsec, start))
    ensures end.Returned? && end.r >= 0 ==>
              && end.r == |got|
              && (end.r >= minBytes || end.r == |Flatten(iov)|)
              && (0 < used <= |replies| ==>
                    && !Ends(replies[used - 1], Expire(timeoutMsec, start))
                    && |Delivered(replies[used - 1])| <= EntryRoom(iov, |Received(replies[..used - 1])|))
    // Only a timeout touches errno.
    ensures errno' == (if 0 < used <= |replies| && end == Returned(-1) && TimedOut(replies[used - 1], Expire(timeoutMsec, start))
                       then TimedOutErrno else errno)
    // When the entries have room, at least one read is issued; the outcome
    // is left undetermined only while some room is left.
    ensures end.Returned? && |Flatten(iov)| > 0 ==> used > 0
    ensures end.Undetermined? ==> |got| < |Flatten(iov)|
    // No read is issued once the entries are full, the last one included.
    ensures 0 < used <= |replies| ==> |Received(replies[..used - 1])| < |Flatten(iov)|
    // The model can say no more when the replies ran out, or when a reply
    // held more bytes than its read asked for; in both cases the read was
    // still going on after the last reply it consumed.
    ensures end.Undetermined? && 0 < used <= |replies| ==>
              Continued(iov, minBytes, Expire(timeoutMsec, start), replies, used - 1)
    ensures end.Undetermined? ==>
              used >= |replies| || (replies[used].Got? && |replies[used].data| > EntryRoom(iov, |got|))
    // The deadline: an unbounded timeout stays as given; a bounded one
    // ends up as the whole milliseconds left at the last clock reading,
    // never negative and, while the clock runs forward, never above the caller's.
    ensures timeoutMsec < 0 ==> timeout == timeoutMsec
    ensures timeoutMsec >= 0 ==> timeout >= 0
    ensures timeoutMsec >= 0 && start > 0
            && (forall k :: 0 <= k < |replies| && k < used ==> replies[k].Got? ==> start <= replies[k].now) ==>
              timeout <= timeoutMsec
    ensures timeoutMsec >= 0 && start > 0 && 0 < used <= |replies| && !Ends(replies[used - 1], Expire(timeoutMsec, start)) ==>
              timeout == Remaining(Expire(timeoutMsec, start), replies[used - 1].now)
    // A read that ends the readv returns before the field is updated: it
    // keeps the value the previous read left, or the caller's.
    ensures used == 0 ==> timeout == timeoutMsec
    ensures timeoutMsec >= 0 && start > 0 && 0 < used <= |replies| && Ends(replies[used - 1], Expire(timeoutMsec, start)) ==>
              && (used == 1 ==> timeout == timeoutMsec)
              && (used > 1 && replies[used - 2].Got? ==>
                    timeout == Remaining(Expire(timeoutMsec, start), replies[used - 2].now))
  {
    end, dst, got, used, errno', timeout := FillAll(iov, minBytes, timeoutMsec, start, errno, replies);
  }

  /**
   * Two one-byte reads into a three-byte entry with `min_bytes` 2: the read
   * returns 2 after the second reply, leaving the last byte untouched.
   */
  method TwoBytesReachMinimum() returns (end: ReadvEnd, dst: seq<seq<byte>>)
    ensures end == Returned(2)
    ensures dst == [[1, 2, 0]]
  {
    var got, used, errno', timeout;
    var iov: seq<seq<byte>> := [[0, 0, 0]];
    var replies := [Got([1], true, 5), Got([2], true, 6)];
    end, dst, got, used, errno', timeout := Readv(iov, 2, -1, 1, 0, replies);
    assert Received(replies[..0]) == [];
    assert Received(replies[..1]) == [1] by {
      assert replies[..1][..0] == replies[..0];
    }
    assert Received(replies[..2]) == [1, 2] by {
      assert replies[..2][..1] == replies[..1];
    }
    assert Flatten(iov) == [0, 0, 0];
    assert EntryRoom(iov, 0) == 3 && EntryRoom(iov, 1) == 2;
    assert used == 2;
    assert |dst| == 1 && Flatten(dst[1..]) == [];
    assert dst[0] == Flatten(dst) == [1, 2, 0];
  }

  /**
   * End of stream (an empty read without retry) makes the readv return -1,
   * the same value as a failure; no 0 is returned for it.
   */
  method EndOfStreamReadsMinusOne() returns (end: ReadvEnd, errno': int)
    ensures end == Returned(-1)
    ensures errno' == 0
  {
    var dst, got, used, timeout;
    end, dst, got, used, errno', timeout := Readv([[0]], 1, -1, 1, 0, [Got([], false, 5)]);
  }

  /**
   * A one-byte entry with `min_bytes` 5: the first read fills the entry, the
   * loops end, and the readv returns the capacity, 1, without a second read.
   */
  method FullEntriesReturnCapacity() returns (end: ReadvEnd, used: nat)
    ensures end == Returned(1)
    ensures used == 1
  {
    var dst, got, errno', timeout;
    var iov: seq<seq<byte>> := [[0]];
    var replies := [Got([1], true, 5), Got([2], true, 6)];
    end, dst, got, used, errno', timeout := Readv(iov, 5, -1, 1, 0, replies);
    assert Received(replies[..0]) == [];
    assert Received(replies[..1]) == [1] by {
      assert replies[..1][..0] == replies[..0];
    }
    assert Flatten(iov) == [0];
    assert EntryRoom(iov, 0) == 1;
  }

  /**
   * With `min_bytes` 0 a non-empty entry still gets one read; when it fails
   * the readv returns -1.
   */
  method FailedReadAtZeroMinimum() returns (end: ReadvEnd)
    ensures end == Returned(-1)
  {
    var dst, got, used, errno', timeout;
    var iov: seq<seq<byte>> := [[0]];
    end, dst, got, used, errno', timeout := Readv(iov, 0, -1, 1, 0, [Failed]);
    assert Flatten(iov) == [0];
  }

  /**
   * A one-byte entry with `min_bytes` 5: the first read fills the entry and
   * the readv returns 1; the failure the engine would report next is never
   * asked for.
   */
  method NoReadOnceEntriesAreFull() returns (end: ReadvEnd, used: nat)
    ensures end == Returned(1)
    ensures used == 1
  {
    var dst, got, errno', timeout;
    var iov: seq<seq<byte>> := [[0]];
    var replies := [Got([1], true, 5), Failed];
    end, dst, got, used, errno', timeout := Readv(iov, 5, -1, 1, 0, replies);
    assert Received(replies[..0]) == [];
    assert Received(replies[..1]) == [1] by {
      assert replies[..1][..0] == replies[..0];
    }
    assert Flatten(iov) == [0];
    assert EntryRoom(iov, 0) == 1;
  }

  /**
   * The same entry under a 100 ms deadline: the late empty reply that would
   * time out the next read is never asked for either.
   */
  method NoTimeoutOnceEntriesAreFull() returns (end: ReadvEnd, used: nat)
    ensures end == Returned(1)
    ensures used == 1
  {
    var dst, got, errno', timeout;
    var iov: seq<seq<byte>> := [[0]];
    var replies := [Got([1], true, 5), Got([], true, 10000000)];
    end, dst, got, used, errno', timeout := Readv(iov, 5, 100, 1, 0, replies);
    assert Received(replies[..0]) == [];
    assert Received(replies[..1]) == [1] by {
      assert replies[..1][..0] == replies[..0];
    }
    assert Flatten(iov) == [0];
    assert EntryRoom(iov, 0) == 1;
  }

  /** A single empty entry: no read is issued and the readv returns 0. */
  method EmptyEntryIssuesNoRead() returns (end: ReadvEnd, used: nat)
    ensures end == Returned(0)
    ensures used == 0
  {
    var dst, got, errno', timeout;
    var iov: seq<seq<byte>> := [[]];
    end, dst, got, used, errno', timeout := Readv(iov, 0, -1, 1, 0, [Failed]);
    assert Flatten(iov) == [];
  }
}
