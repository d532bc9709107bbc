/**
 * The write coalescing engine (`_mongoc_stream_tls_openssl_writev`): walks
 * the caller's fragments with a 4096-byte scratch buffer, hands chunks to the
 * engine's write one at a time with deadline bookkeeping, and stops at the
 * first short or failed write.
 */
module WriteEngine {
  import opened Bytes
  import opened Deadline
  import opened WritePlan

  /** One call of the engine's write: the chunk, the `timeout_msec` in force, and its result. */
  datatype Call = Call(chunk: Chunk, timeoutMsec: int, ret: int)

  /** The pending write of one step of the walk: nothing, or one chunk. */
  datatype ToWrite = Idle | Write(chunk: Chunk)

  /** The chunks handed to the engine, in order. */
  function Chunks(calls: seq<Call>): (chunks: seq<Chunk>)
    ensures |chunks| == |calls|
    ensures forall k :: 0 <= k < |calls| ==> chunks[k] == calls[k].chunk
  {
    seq(|calls|, k requires 0 <= k < |calls| => calls[k].chunk)
  }

  /** The sum of the engine's results over a list of calls. */
  function Accepted(calls: seq<Call>): (total: int)
  {
    if |calls| == 0 then 0 else Accepted(calls[..|calls| - 1]) + calls[|calls| - 1].ret
  }

  /** True when every call's chunk was accepted in full. */
  predicate FullyAccepted(calls: seq<Call>)
  {
    forall k :: 0 <= k < |calls| ==> calls[k].ret == |calls[k].chunk.data|
  }

  /** True when no call reported fewer bytes than its chunk holds. */
  predicate NoneShort(calls: seq<Call>)
  {
    forall k :: 0 <= k < |calls| ==> calls[k].ret >= |calls[k].chunk.data|
  }

  /** True when no call reported more bytes than its chunk holds. */
  predicate WithinChunks(calls: seq<Call>)
  {
    forall k :: 0 <= k < |calls| ==> calls[k].ret <= |calls[k].chunk.data|
  }

  /** The calls so far follow the plan, each answered by the matching reply. */
  predicate FollowsPlan(frags: seq<seq<byte>>, replies: seq<WriteReply>, calls: seq<Call>)
  {
    && |calls| <= |Plan(frags)|
    && |calls| <= |replies|
    && forall k :: 0 <= k < |calls| ==> calls[k].chunk == Plan(frags)[k] && calls[k].ret == replies[k].n
  }

  /** How the `timeout_msec` field evolved over the calls so far, ending at `timeout`. */
  predicate BudgetKept(timeoutMsec: int, replies: seq<WriteReply>, calls: seq<Call>, timeout: int)
  {
    && |calls| <= |replies|
    && (|calls| == 0 ==> timeout == timeoutMsec)
    && (|calls| > 0 ==> calls[0].timeoutMsec == timeoutMsec)
    && (forall k :: 0 < k < |calls| ==>
          calls[k].timeoutMsec == WriteStep(calls[k - 1].timeoutMsec, replies[k - 1]).timeoutMsec)
    && (|calls| > 0 ==> timeout == WriteStep(calls[|calls| - 1].timeoutMsec, replies[|calls| - 1]).timeoutMsec)
    && (timeoutMsec < 0 ==>
          timeout == timeoutMsec && forall k :: 0 <= k < |calls| ==> calls[k].timeoutMsec == timeoutMsec)
    && (timeoutMsec >= 0 ==> timeout >= 0)
    && (timeoutMsec >= 0 && ClockForward(replies) ==>
          && timeout <= timeoutMsec
          && (forall k :: 0 <= k < |calls| ==> timeout <= calls[k].timeoutMsec)
          && (forall j, k :: 0 <= j <= k < |calls| ==>
                0 <= calls[k].timeoutMsec <= calls[j].timeoutMsec <= timeoutMsec))
  }

  /** Calls that all accepted their chunks in full accepted the bytes the chunks carry. */
  lemma {:induction false} AcceptedFull(calls: seq<Call>)
    requires FullyAccepted(calls)
    ensures Accepted(calls) == |Payload(Chunks(calls))|
  {
    if |calls| > 0 {
      var front := calls[..|calls| - 1];
      AcceptedFull(front);
      assert Chunks(calls) == Chunks(front) + [calls[|calls| - 1].chunk];
      PayloadAppend(Chunks(front), [calls[|calls| - 1].chunk]);
      assert Payload([calls[|calls| - 1].chunk]) == calls[|calls| - 1].chunk.data;
    }
  }

  /** Calls that never report more than asked accept at most the bytes the chunks carry. */
  lemma {:induction false} AcceptedWithin(calls: seq<Call>)
    requires WithinChunks(calls)
    ensures Accepted(calls) <= |Payload(Chunks(calls))|
  {
    if |calls| > 0 {
      var front := calls[..|calls| - 1];
      AcceptedWithin(front);
      assert Chunks(calls) == Chunks(front) + [calls[|calls| - 1].chunk];
      PayloadAppend(Chunks(front), [calls[|calls| - 1].chunk]);
      assert Payload([calls[|calls| - 1].chunk]) == calls[|calls| - 1].chunk.data;
    }
  }

  /** Calls that follow the plan and never report more than asked accept at most the fragments' total. */
  lemma AcceptedWithinTotal(frags: seq<seq<byte>>, replies: seq<WriteReply>, calls: seq<Call>)
    requires FollowsPlan(frags, replies, calls) && WithinChunks(calls)
    ensures Accepted(calls) <= |Flatten(frags)|
  {
    var plan := Plan(frags);
    AcceptedWithin(calls);
    assert Chunks(calls) == plan[..|calls|];
    assert plan == plan[..|calls|] + plan[|calls|..];
    PayloadAppend(plan[..|calls|], plan[|calls|..]);
    PlanContent(frags);
  }

  /** The result bounds that hold wherever the walk stops. */
  lemma Settle(frags: seq<seq<byte>>, replies: seq<WriteReply>, calls: seq<Call>)
    requires FollowsPlan(frags, replies, calls)
    ensures WithinChunks(calls) ==> Accepted(calls) <= |Flatten(frags)|
    ensures (forall k :: 0 <= k < |calls| ==> replies[k].n == |Plan(frags)[k].data|) ==>
              Accepted(calls) == |Payload(Chunks(calls))|
    ensures |calls| == |Plan(frags)| ==> Payload(Chunks(calls)) == Flatten(frags)
  {
    if |calls| == |Plan(frags)| {
      assert Chunks(calls) == Plan(frags);
      PlanContent(frags);
    }
    if WithinChunks(calls) {
      AcceptedWithinTotal(frags, replies, calls);
    }
    if forall k :: 0 <= k < |calls| ==> replies[k].n == |Plan(frags)[k].data| {
      AcceptedFull(calls);
    }
  }

  /**
   * One step of the walk over fragment `i` from offset `pos`: either copy
   * into the buffer (and take the buffer for sending when it becomes full),
   * or take the fragment's remainder for sending straight through. The step
   * is exactly one step of the plan.
   */
  method Route(frags: seq<seq<byte>>, i: nat, pos: nat, buf: seq<byte>)
    returns (toWrite: ToWrite, pos': nat, buf': seq<byte>)
    requires Cursor(frags, i, pos, buf) && i < |frags| && pos < |frags[i]|
    ensures Cursor(frags, i, pos', buf') && pos < pos'
    ensures toWrite.Idle? ==> |buf'| > |buf| && Drain(frags, i, pos, buf) == Drain(frags, i, pos', buf')
    ensures toWrite.Write? ==> Drain(frags, i, pos, buf) == [toWrite.chunk] + Drain(frags, i, pos', buf')
    ensures toWrite.Write? ==> !toWrite.chunk.Tail?
    ensures |buf| > 0 ==> !toWrite.Write? || toWrite.chunk.Flush?
    // The routing rule: the remainder goes straight through exactly when
    // nothing is buffered and it is the last fragment or fills the buffer.
    ensures (toWrite.Write? && toWrite.chunk.Through?) <==>
              |buf| == 0 && (i + 1 == |frags| || |frags[i]| - pos >= BufferSize)
    ensures toWrite.Write? && toWrite.chunk.Through? ==>
              toWrite.chunk.data == frags[i][pos..] && pos' == |frags[i]| && buf' == buf
    // Otherwise as much as fits is copied, and a buffer that becomes full is sent.
    ensures !(toWrite.Write? && toWrite.chunk.Through?) ==>
              && pos' - pos == Min(|frags[i]| - pos, BufferSize - |buf|)
              && (toWrite.Write? <==> |buf| + (pos' - pos) == BufferSize)
              && buf + frags[i][pos..pos'] == (if toWrite.Write? then toWrite.chunk.data else buf')
  {
    toWrite := Idle;
    if Buffers(frags, i, pos, buf) {
      var n := Min(|frags[i]| - pos, BufferSize - |buf|);
      buf' := buf + frags[i][pos..pos + n];
      pos' := pos + n;
      if |buf'| == BufferSize {
        toWrite := Write(Flush(buf'));
        buf' := [];
      }
    } else {
      toWrite := Write(Through(frags[i][pos..], i));
      pos' := |frags[i]|;
      buf' := buf;
    }
  }

  /** Recording the next planned chunk with its reply keeps the calls on the plan. */
  lemma IssuedOnPlan(frags: seq<seq<byte>>, replies: seq<WriteReply>, calls: seq<Call>, next: seq<Call>)
    requires FollowsPlan(frags, replies, calls)
    requires |calls| < |Plan(frags)| && |calls| < |replies|
    requires |next| == |calls| + 1 && next[..|calls|] == calls
    requires next[|calls|].chunk == Plan(frags)[|calls|] && next[|calls|].ret == replies[|calls|].n
    ensures FollowsPlan(frags, replies, next)
    ensures Accepted(next) == Accepted(calls) + next[|calls|].ret
  {
    forall k | 0 <= k < |next|
      ensures next[k].chunk == Plan(frags)[k] && next[k].ret == replies[k].n
    {
      if k < |calls| {
        assert next[k] == calls[k];
      }
    }
  }

  /** Recording one more engine write keeps the history of `timeout_msec`. */
  lemma IssuedInBudget(timeoutMsec: int, replies: seq<WriteReply>, calls: seq<Call>, timeout: int, chunk: Chunk)
    requires |calls| < |replies|
    requires BudgetKept(timeoutMsec, replies, calls, timeout)
    ensures var w := WriteStep(timeout, replies[|calls|]);
            BudgetKept(timeoutMsec, replies, calls + [Call(chunk, timeout, w.ret)], w.timeoutMsec)
  {
    var reply := replies[|calls|];
    var w := WriteStep(timeout, reply);
    var next := calls + [Call(chunk, timeout, w.ret)];
    assert forall k :: 0 <= k < |calls| ==> next[k] == calls[k];
    assert ClockForward(replies) ==> reply.before <= reply.after;
  }

  /** Issuing the next planned chunk keeps the bookkeeping of the walk. */
  lemma Issued(frags: seq<seq<byte>>, replies: seq<WriteReply>, calls: seq<Call>,
               timeoutMsec: int, timeout: int, chunk: Chunk)
    requires FollowsPlan(frags, replies, calls)
    requires |calls| < |Plan(frags)| && Plan(frags)[|calls|] == chunk && |calls| < |replies|
    requires BudgetKept(timeoutMsec, replies, calls, timeout)
    ensures var w := WriteStep(timeout, replies[|calls|]);
            var next := calls + [Call(chunk, timeout, w.ret)];
            && FollowsPlan(frags, replies, next)
            && BudgetKept(timeoutMsec, replies, next, w.timeoutMsec)
            && Accepted(next) == Accepted(calls) + w.ret
            && next[..|calls|] == calls
  {
    var w := WriteStep(timeout, replies[|calls|]);
    var next := calls + [Call(chunk, timeout, w.ret)];
    assert next[..|calls|] == calls;
    IssuedOnPlan(frags, replies, calls, next);
    IssuedInBudget(timeoutMsec, replies, calls, timeout, chunk);
  }

  /** The walk's bookkeeping at a step boundary, while no call has come up short. */
  ghost predicate Walking(frags: seq<seq<byte>>, replies: seq<WriteReply>, timeoutMsec: int,
                          calls: seq<Call>, r: int, timeout: int, i: nat, pos: nat, buf: seq<byte>)
  {
    && Cursor(frags, i, pos, buf)
    && |calls| + |Drain(frags, i, pos, buf)| == |Plan(frags)|
    && Plan(frags)[|calls|..] == Drain(frags, i, pos, buf)
    && FollowsPlan(frags, replies, calls)
    && NoneShort(calls)
    && r == Accepted(calls) && r >= 0
    && BudgetKept(timeoutMsec, replies, calls, timeout)
  }

  /** The walk's bookkeeping once a short or failed call inside the walk has ended it. */
  ghost predicate Stopped(frags: seq<seq<byte>>, replies: seq<WriteReply>, timeoutMsec: int,
                          calls: seq<Call>, r: int, timeout: int)
  {
    && FollowsPlan(frags, replies, calls)
    && |calls| > 0
    && !calls[|calls| - 1].chunk.Tail?
    && calls[|calls| - 1].ret < |calls[|calls| - 1].chunk.data|
    && NoneShort(calls[..|calls| - 1])
    && r == (if calls[|calls| - 1].ret < 0 then Accepted(calls[..|calls| - 1]) else Accepted(calls))
    && r >= 0
    && BudgetKept(timeoutMsec, replies, calls, timeout)
  }

  /** A short or failed call stops the walk, counting the bytes of a short one. */
  lemma SentShort(frags: seq<seq<byte>>, replies: seq<WriteReply>, timeoutMsec: int, i: nat, pos: nat,
                  calls: seq<Call>, r: int, timeout: int, buf: seq<byte>, pos': nat, buf': seq<byte>, chunk: Chunk)
    requires i < |frags| && |Plan(frags)| <= |replies|
    requires Walking(frags, replies, timeoutMsec, calls, r, timeout, i, pos, buf)
    requires Cursor(frags, i, pos', buf')
    requires Drain(frags, i, pos, buf) == [chunk] + Drain(frags, i, pos', buf')
    requires !chunk.Tail?
    requires replies[|calls|].n < |chunk.data|
    ensures var w := WriteStep(timeout, replies[|calls|]);
            Stopped(frags, replies, timeoutMsec, calls + [Call(chunk, timeout, w.ret)],
                    if w.ret < 0 then r else r + w.ret, w.timeoutMsec)
  {
    var plan := Plan(frags);
    assert plan[|calls|] == chunk;
    Issued(frags, replies, calls, timeoutMsec, timeout, chunk);
  }

  /** A call accepted in full lets the walk go on past the chunk. */
  lemma SentFull(frags: seq<seq<byte>>, replies: seq<WriteReply>, timeoutMsec: int, i: nat, pos: nat,
                 calls: seq<Call>, r: int, timeout: int, buf: seq<byte>, pos': nat, buf': seq<byte>, chunk: Chunk)
    requires i < |frags| && |Plan(frags)| <= |replies|
    requires Walking(frags, replies, timeoutMsec, calls, r, timeout, i, pos, buf)
    requires Cursor(frags, i, pos', buf')
    requires Drain(frags, i, pos, buf) == [chunk] + Drain(frags, i, pos', buf')
    requires !chunk.Tail?
    requires replies[|calls|].n >= |chunk.data|
    ensures var w := WriteStep(timeout, replies[|calls|]);
            Walking(frags, replies, timeoutMsec, calls + [Call(chunk, timeout, w.ret)], r + w.ret, w.timeoutMsec,
                    i, pos', buf')
  {
    var plan := Plan(frags);
    assert plan[|calls|] == chunk;
    assert plan[|calls| + 1..] == Drain(frags, i, pos', buf');
    Issued(frags, replies, calls, timeoutMsec, timeout, chunk);
  }

  /**
   * One step of the walk inside fragment `i`: route the next bytes, and
   * send the chunk that becomes due, if any; `stopped` tells whether a
   * short or failed call ended the walk.
   */
  method SendStep(frags: seq<seq<byte>>, replies: seq<WriteReply>, timeoutMsec: int, i: nat, pos: nat,
                  calls: seq<Call>, r: int, timeout: int, buf: seq<byte>)
    returns (pos': nat, calls': seq<Call>, r': int, timeout': int, buf': seq<byte>, stopped: bool)
    requires i < |frags| && pos < |frags[i]| && |Plan(frags)| <= |replies|
    requires Walking(frags, replies, timeoutMsec, calls, r, timeout, i, pos, buf)
    ensures !stopped ==> pos < pos' && Walking(frags, replies, timeoutMsec, calls', r', timeout', i, pos', buf')
    ensures stopped ==> Stopped(frags, replies, timeoutMsec, calls', r', timeout')
  {
    calls', r', timeout' := calls, r, timeout;
    stopped := false;
    var toWrite;
    toWrite, pos', buf' := Route(frags, i, pos, buf);
    if toWrite.Write? {
      var chunk := toWrite.chunk;
      assert |calls| < |replies|;
      if replies[|calls|].n < |chunk.data| {
        SentShort(frags, replies, timeoutMsec, i, pos, calls, r, timeout, buf, pos', buf', chunk);
      } else {
        SentFull(frags, replies, timeoutMsec, i, pos, calls, r, timeout, buf, pos', buf', chunk);
      }
      var w := WriteStep(timeout, replies[|calls|]);
      calls' := calls + [Call(chunk, timeout, w.ret)];
      timeout' := w.timeoutMsec;
      if w.ret < 0 {
        stopped := true;
        return;
      }
      r' := r + w.ret;
      if w.ret < |chunk.data| {
        stopped := true;
      }
    }
  }

  /**
   * The inner loop of the walk: fragment `i` from its first byte to its
   * last, sending each chunk as it becomes due; `stopped` tells whether a
   * short or failed call ended the walk.
   */
  method WalkFragment(frags: seq<seq<byte>>, replies: seq<WriteReply>, timeoutMsec: int, i: nat,
                      calls: seq<Call>, r: int, timeout: int, buf: seq<byte>)
    returns (calls': seq<Call>, r': int, timeout': int, buf': seq<byte>, stopped: bool)
    requires i < |frags| && |Plan(frags)| <= |replies|
    requires Walking(frags, replies, timeoutMsec, calls, r, timeout, i, 0, buf)
    ensures !stopped ==> Walking(frags, replies, timeoutMsec, calls', r', timeout', i + 1, 0, buf')
    ensures stopped ==> Stopped(frags, replies, timeoutMsec, calls', r', timeout')
  {
    calls', r', timeout', buf' := calls, r, timeout, buf;
    stopped := false;
    var pos: nat := 0;
    while pos < |frags[i]| && !stopped
      invariant pos <= |frags[i]|
      invariant !stopped ==> Walking(frags, replies, timeoutMsec, calls', r', timeout', i, pos, buf')
      invariant stopped ==> Stopped(frags, replies, timeoutMsec, calls', r', timeout')
      decreases |frags[i]| - pos, !stopped
    {
      var pos';
      pos', calls', r', timeout', buf', stopped := SendStep(frags, replies, timeoutMsec, i, pos, calls', r', timeout', buf');
      if !stopped {
        pos := pos';
      }
    }
    if !stopped {
      assert Drain(frags, i, pos, buf') == Drain(frags, i + 1, 0, buf');
    }
  }

  /**
   * The bookkeeping once the walk has issued the whole plan: every call but
   * the last took its chunk in full, and the result is the bytes accepted,
   * or the final flush's failure.
   */
  ghost predicate Completed(frags: seq<seq<byte>>, replies: seq<WriteReply>, timeoutMsec: int,
                            calls: seq<Call>, r: int, timeout: int)
  {
    && FollowsPlan(frags, replies, calls)
    && |calls| == |Plan(frags)|
    && (|calls| > 0 ==> NoneShort(calls[..|calls| - 1]))
    && (|calls| > 0 && calls[|calls| - 1].ret < 0 ==>
          calls[|calls| - 1].chunk.Tail? && r == calls[|calls| - 1].ret)
    && ((|calls| > 0 ==> calls[|calls| - 1].ret >= 0) ==> r == Accepted(calls) && r >= 0)
    && BudgetKept(timeoutMsec, replies, calls, timeout)
  }

  /** What the caller of the writev learns, however the walk ended. */
  lemma Conclude(frags: seq<seq<byte>>, replies: seq<WriteReply>, timeoutMsec: int,
                 calls: seq<Call>, r: int, timeout: int)
    requires |Plan(frags)| <= |replies|
    requires Stopped(frags, replies, timeoutMsec, calls, r, timeout)
          || Completed(frags, replies, timeoutMsec, calls, r, timeout)
    // The chunks issued are the plan's, in order, each answered by its reply.
    ensures |calls| <= |Plan(frags)|
    ensures forall k :: 0 <= k < |calls| ==> calls[k].chunk == Plan(frags)[k] && calls[k].ret == replies[k].n
    // Early termination: every call but the last was accepted in full, and
    // the walk stops before the plan is done only after a short or failed call.
    ensures forall k :: 0 <= k < |calls| - 1 ==> calls[k].ret >= |calls[k].chunk.data|
    ensures |calls| < |Plan(frags)| ==>
              |calls| > 0 && calls[|calls| - 1].ret < |calls[|calls| - 1].chunk.data|
    // The result: the bytes accepted; a failure inside the walk reports the
    // bytes accepted before it; only a failed final flush reports a negative
    // value, and it reports that flush's own result.
    ensures |calls| == 0 ==> r == 0
    ensures |calls| > 0 && calls[|calls| - 1].ret >= 0 ==> r == Accepted(calls)
    ensures |calls| > 0 && calls[|calls| - 1].ret < 0 && !calls[|calls| - 1].chunk.Tail? ==>
              r == Accepted(calls[..|calls| - 1]) && r >= 0
    ensures r < 0 ==> |calls| > 0 && calls[|calls| - 1].chunk.Tail? && r == calls[|calls| - 1].ret
    ensures |calls| > 0 && calls[|calls| - 1].ret < 0 && calls[|calls| - 1].chunk.Tail? ==>
              r == calls[|calls| - 1].ret
    ensures WithinChunks(calls) ==> r <= |Flatten(frags)|
    // Content preservation: when every write is accepted in full, the
    // engine receives exactly the fragments' bytes, in order, and the result
    // is their total length.
    ensures (forall k :: 0 <= k < |Plan(frags)| ==> replies[k].n == |Plan(frags)[k].data|) ==>
              && |calls| == |Plan(frags)|
              && Payload(Chunks(calls)) == Flatten(frags)
              && r == |Flatten(frags)|
    // The deadline: the field starts from the caller's value, and each call
    // runs with the budget the previous engine write left, the last one
    // leaving the final value; an unbounded timeout is never changed; a
    // bounded one never goes negative and, while the clock runs forward,
    // never grows from one call to the next.
    ensures |calls| == 0 ==> timeout == timeoutMsec
    ensures |calls| > 0 ==> calls[0].timeoutMsec == timeoutMsec
    ensures forall k :: 0 < k < |calls| ==>
              calls[k].timeoutMsec == WriteStep(calls[k - 1].timeoutMsec, replies[k - 1]).timeoutMsec
    ensures |calls| > 0 ==> timeout == WriteStep(calls[|calls| - 1].timeoutMsec, replies[|calls| - 1]).timeoutMsec
    ensures timeoutMsec < 0 ==>
              timeout == timeoutMsec && forall k :: 0 <= k < |calls| ==> calls[k].timeoutMsec == timeoutMsec
    ensures timeoutMsec >= 0 ==> timeout >= 0
    ensures timeoutMsec >= 0 && ClockForward(replies) ==>
              && timeout <= timeoutMsec
              && (forall k :: 0 <= k < |calls| ==> timeout <= calls[k].timeoutMsec)
              && (forall j, k :: 0 <= j <= k < |calls| ==>
                    0 <= calls[k].timeoutMsec <= calls[j].timeoutMsec <= timeoutMsec)
  {
    Settle(frags, replies, calls);
    if |calls| > 0 {
      Settle(frags, replies, calls[..|calls| - 1]);
    }
  }

  /** The outer loop of the walk: fragment after fragment, until one stops it. */
  method Walk(frags: seq<seq<byte>>, replies: seq<WriteReply>, timeoutMsec: int)
    returns (calls: seq<Call>, r: int, timeout: int, buf: seq<byte>, stopped: bool)
    requires |Plan(frags)| <= |replies|
    ensures !stopped ==> Walking(frags, replies, timeoutMsec, calls, r, timeout, |frags|, 0, buf)
    ensures stopped ==> Stopped(frags, replies, timeoutMsec, calls, r, timeout)
  {
    timeout := timeoutMsec;
    r := 0;
    calls := [];
    buf := [];
    stopped := false;
    var i := 0;
    while i < |frags| && !stopped
      invariant i <= |frags|
      invariant !stopped ==> Walking(frags, replies, timeoutMsec, calls, r, timeout, i, 0, buf)
      invariant stopped ==> Stopped(frags, replies, timeoutMsec, calls, r, timeout)
    {
      calls, r, timeout, buf, stopped := WalkFragment(frags, replies, timeoutMsec, i, calls, r, timeout, buf);
      i := i + 1;
    }
  }

  /** After the last fragment: bytes still buffered go out in one final call. */
  method FlushTail(frags: seq<seq<byte>>, replies: seq<WriteReply>, timeoutMsec: int,
                   calls: seq<Call>, r: int, timeout: int, buf: seq<byte>)
    returns (calls': seq<Call>, r': int, timeout': int)
    requires |Plan(frags)| <= |replies|
    requires Walking(frags, replies, timeoutMsec, calls, r, timeout, |frags|, 0, buf)
    ensures Completed(frags, replies, timeoutMsec, calls', r', timeout')
  {
    calls', r', timeout' := calls, r, timeout;
    if |buf| > 0 {
      assert Plan(frags)[|calls|] == Tail(buf);
      Issued(frags, replies, calls, timeoutMsec, timeout, Tail(buf));
      var w := WriteStep(timeout, replies[|calls|]);
      calls' := calls + [Call(Tail(buf), timeout, w.ret)];
      timeout' := w.timeoutMsec;
      if w.ret < 0 {
        r' := w.ret;
      } else {
        r' := r + w.ret;
      }
      assert calls'[..|calls'| - 1] == calls;
    }
  }

  /**
   * Writes the fragments `frags` through the engine with the caller's
   * `timeoutMsec`. The engine's write answers call `k` with `replies[k]`; the
   * walk can issue at most one call per chunk of the plan. Returns the
   * result `r`, the calls issued, and the stream's `timeout_msec` afterwards.
   */
  method Writev(frags: seq<seq<byte>>, timeoutMsec: int, replies: seq<WriteReply>)
    returns (r: int, calls: seq<Call>, timeout: int)
    requires |frags| > 0
    requires |Plan(frags)| <= |replies|
    // The chunks issued are the plan's, in order, each answered by its reply.
    ensures |calls| <= |Plan(frags)|
    ensures forall k :: 0 <= k < |calls| ==> calls[k].chunk == Plan(frags)[k] && calls[k].ret == replies[k].n
    // Early termination: every call but the last was accepted in full, and
    // the walk stops before the plan is done only after a short or failed call.
    ensures forall k :: 0 <= k < |calls| - 1 ==> calls[k].ret >= |calls[k].chunk.data|
    ensures |calls| < |Plan(frags)| ==>
              |calls| > 0 && calls[|calls| - 1].ret < |calls[|calls| - 1].chunk.data|
    // The result: the bytes accepted; a failure inside the walk reports the
    // bytes accepted before it; only a failed final flush reports a negative
    // value, and it reports that flush's own result.
    ensures |calls| == 0 ==> r == 0
    ensures |calls| > 0 && calls[|calls| - 1].ret >= 0 ==> r == Accepted(calls)
    ensures |calls| > 0 && calls[|calls| - 1].ret < 0 && !calls[|calls| - 1].chunk.Tail? ==>
              r == Accepted(calls[..|calls| - 1]) && r >= 0
    ensures r < 0 ==> |calls| > 0 && calls[|calls| - 1].chunk.Tail? && r == calls[|calls| - 1].ret
    ensures |calls| > 0 && calls[|calls| - 1].ret < 0 && calls[|calls| - 1].chunk.Tail? ==>
              r == calls[|calls| - 1].ret
    ensures WithinChunks(calls) ==> r <= |Flatten(frags)|
    // Content preservation: when every write is accepted in full, the
    // engine receives exactly the fragments' bytes, in order, and the result
    // is their total length.
    ensures (forall k :: 0 <= k < |Plan(frags)| ==> replies[k].n == |Plan(frags)[k].data|) ==>
              && |calls| == |Plan(frags)|
              && Payload(Chunks(calls)) == Flatten(frags)
              && r == |Flatten(frags)|
    // The deadline: the field starts from the caller's value, and each call
    // runs with the budget the previous engine write left, the last one
    // leaving the final value; an unbounded timeout is never changed; a
    // bounded one never goes negative and, while the clock runs forward,
    // never grows from one call to the next.
    ensures |calls| == 0 ==> timeout == timeoutMsec
    ensures |calls| > 0 ==> calls[0].timeoutMsec == timeoutMsec
    ensures forall k :: 0 < k < |calls| ==>
              calls[k].timeoutMsec == WriteStep(calls[k - 1].timeoutMsec, replies[k - 1]).timeoutMsec
    ensures |calls| > 0 ==> timeout == WriteStep(calls[|calls| - 1].timeoutMsec, replies[|calls| - 1]).timeoutMsec
    ensures timeoutMsec < 0 ==>
              timeout == timeoutMsec && forall k :: 0 <= k < |calls| ==> calls[k].timeoutMsec == timeoutMsec
    ensures timeoutMsec >= 0 ==> timeout >= 0
    ensures timeoutMsec >= 0 && ClockForward(replies) ==>
              && timeout <= timeoutMsec
              && (forall k :: 0 <= k < |calls| ==> timeout <= calls[k].timeoutMsec)
              && (forall j, k :: 0 <= j <= k < |calls| ==>
                    0 <= calls[k].timeoutMsec <= calls[j].timeoutMsec <= timeoutMsec)
  {
    var buf, stopped;
    calls, r, timeout, buf, stopped := Walk(frags, replies, timeoutMsec);
    if !stopped {
      calls, r, timeout := FlushTail(frags, replies, timeoutMsec, calls, r, timeout, buf);
    }
    Conclude(frags, replies, timeoutMsec, calls, r, timeout);
  }

  /**
   * A single fragment is written straight through; when that one write
   * fails, the writev returns 0, the bytes accepted before it, and not the
   * write's negative result.
   */
  method FirstWriteFailureReturnsZero() returns (r: int, calls: seq<Call>)
    ensures r == 0
    ensures |calls| == 1 && calls[0].chunk == Through([7], 0) && calls[0].ret == -1
  {
    var frags: seq<seq<byte>> := [[7]];
    var timeout;
    assert Drain(frags, 1, 0, []) == [];
    assert Drain(frags, 0, 1, []) == [];
    assert !Buffers(frags, 0, 0, []);
    assert Plan(frags) == [Through([7], 0)];
    r, calls, timeout := Writev(frags, -1, [WriteReply(-1, 1, 1)]);
  }

  /**
   * Two small fragments are buffered and go out in one final flush; when
   * that flush fails, its negative result is the writev's result.
   */
  method FailedFlushReturnsItsResult() returns (r: int, calls: seq<Call>)
    ensures r == -1
    ensures |calls| == 1 && calls[0].chunk == Tail([1, 2])
  {
    var frags: seq<seq<byte>> := [[1], [2]];
    var timeout;
    assert Buffers(frags, 0, 0, []);
    assert Drain(frags, 2, 0, [1, 2]) == [Tail([1, 2])];
    assert Drain(frags, 1, 1, [1, 2]) == [Tail([1, 2])];
    assert Drain(frags, 1, 0, [1]) == [Tail([1, 2])] by {
      assert frags[1][0..1] == [2];
      assert [1] + frags[1][0..1] == [1, 2];
    }
    assert Drain(frags, 0, 1, [1]) == [Tail([1, 2])];
    assert Plan(frags) == [Tail([1, 2])] by {
      assert frags[0][0..1] == [1];
      assert [] + frags[0][0..1] == [1];
    }
    r, calls, timeout := Writev(frags, -1, [WriteReply(-1, 1, 1)]);
  }
}
