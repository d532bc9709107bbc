/**
 * The deadline tracker: a millisecond budget becomes an absolute expiry
 * instant on the monotonic clock (microseconds), and after each underlying
 * call the budget left is written back, in whole milliseconds, to the
 * stream's `timeout_msec` field.
 *
 * The clock is not read here: every reading is an input. Readings are
 * microsecond timestamps; the real monotonic clock only yields positive ones.
 */
module Deadline {

  /** The `errno` value a timed-out operation leaves behind (`ETIMEDOUT` on Linux). */
  const TimedOutErrno: int := 110

  /** The expiry instant 0 stands for "no deadline". */
  const Unbounded: int := 0

  /**
   * The expiry instant computed when an operation starts at clock reading
   * `now`: `timeoutMsec` milliseconds later, or `Unbounded` for a negative
   * timeout. For a positive clock reading the sentinel cannot be hit by
   * accident: the deadline is bounded exactly when the timeout is not negative.
   */
  function Expire(timeoutMsec: int, now: int): (expire: int)
    ensures timeoutMsec < 0 ==> expire == Unbounded
    ensures timeoutMsec >= 0 ==> expire - now == timeoutMsec * 1000
    ensures now > 0 ==> (expire != Unbounded <==> timeoutMsec >= 0)
  {
    if timeoutMsec >= 0 then now + timeoutMsec * 1000 else Unbounded
  }

  /**
   * The budget left at clock reading `now` before `expire`, in whole
   * milliseconds rounded down, and 0 once the deadline has passed. (The
   * source divides a non-negative 64-bit difference, where C's truncating
   * division and Dafny's Euclidean division agree.)
   */
  function Remaining(expire: int, now: int): (msec: int)
    ensures msec >= 0
    ensures now > expire ==> msec == 0
    ensures now <= expire ==> msec * 1000 <= expire - now < msec * 1000 + 1000
  {
    if expire - now < 0 then 0 else (expire - now) / 1000
  }

  /** Right at the start, the budget left is the whole budget: `Remaining` undoes `Expire`. */
  lemma RemainingAtStart(timeoutMsec: int, now: int)
    requires timeoutMsec >= 0
    ensures Remaining(Expire(timeoutMsec, now), now) == timeoutMsec
  {
  }

  /** As the clock runs forward the budget left never grows. */
  lemma RemainingShrinks(expire: int, earlier: int, later: int)
    requires earlier <= later
    ensures 0 <= Remaining(expire, later) <= Remaining(expire, earlier)
  {
  }

  /**
   * What the engine's write (`BIO_write`) answered for one call: `n` is its
   * result, `before` the clock reading taken just before the call and `after`
   * the one taken just after it. Each reading is only looked at on the paths
   * where the source reads the clock.
   */
  datatype WriteReply = WriteReply(n: int, before: int, after: int)

  /** The result of one engine write and the stream's `timeout_msec` afterwards. */
  datatype Written = Written(ret: int, timeoutMsec: int)

  /** True when every reply's clock readings are in order around its call. */
  predicate ClockForward(replies: seq<WriteReply>)
  {
    forall k :: 0 <= k < |replies| ==> replies[k].before <= replies[k].after
  }

  /**
   * One engine write with its deadline bookkeeping: a fresh deadline is taken
   * from the current `timeout_msec` when that is not negative; the engine's
   * result is returned as is; a result of 0 or less returns at once, leaving
   * the field alone; after a positive result under a deadline the field holds
   * the budget left. The budget never goes negative, and it never grows while
   * the clock runs forward.
   */
  function WriteStep(timeoutMsec: int, reply: WriteReply): (w: Written)
    ensures w.ret == reply.n
    ensures reply.n <= 0 || timeoutMsec < 0 ==> w.timeoutMsec == timeoutMsec
    ensures timeoutMsec >= 0 ==> w.timeoutMsec >= 0
    ensures timeoutMsec >= 0 && reply.before <= reply.after ==> w.timeoutMsec <= timeoutMsec
    ensures timeoutMsec >= 0 && reply.before > 0 && reply.n > 0 ==>
              var deadline := reply.before + timeoutMsec * 1000;
              && (reply.after > deadline ==> w.timeoutMsec == 0)
              && (reply.after <= deadline ==>
                    w.timeoutMsec * 1000 <= deadline - reply.after < w.timeoutMsec * 1000 + 1000)
  {
    var expire := Expire(timeoutMsec, reply.before);
    if reply.n <= 0 then Written(reply.n, timeoutMsec)
    else if expire != Unbounded then Written(reply.n, Remaining(expire, reply.after))
    else Written(reply.n, timeoutMsec)
  }
}
