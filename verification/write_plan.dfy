/**
 * The routing rule of the write coalescing engine, as a reference definition:
 * the sequence of chunks handed to the engine's write when every write is
 * accepted in full. Fragments are walked in order with a 4096-byte scratch
 * buffer. A fragment's remaining bytes are copied into the buffer when the
 * buffer already holds bytes, or when another fragment follows and the
 * remainder is smaller than the free space; the buffer is sent whenever it
 * becomes exactly full. Any other remainder is sent straight from the
 * fragment. Whatever is still buffered after the last fragment is sent last.
 */
module WritePlan {
  import opened Bytes

  /** The size of the scratch buffer. */
  const BufferSize: nat := 4096

  /** One range handed to the engine's write, tagged with where it came from. */
  datatype Chunk =
    | Flush(data: seq<byte>)               // the scratch buffer, sent because it is full
    | Through(data: seq<byte>, frag: nat)  // the rest of fragment `frag`, sent without copying
    | Tail(data: seq<byte>)                // what is still buffered after the last fragment

  /**
   * A position of the walk: fragment `i`, offset `pos` in it, with `buf`
   * buffered. Between steps the buffer is never full: a full buffer is sent
   * at once.
   */
  predicate Cursor(frags: seq<seq<byte>>, i: nat, pos: nat, buf: seq<byte>)
  {
    && i <= |frags|
    && (i < |frags| ==> pos <= |frags[i]|)
    && |buf| < BufferSize
  }

  /** True when the remainder of fragment `i` from `pos` on is copied into the buffer. */
  predicate Buffers(frags: seq<seq<byte>>, i: nat, pos: nat, buf: seq<byte>)
    requires i < |frags| && pos <= |frags[i]|
  {
    |buf| > 0 || (i + 1 < |frags| && BufferSize - |buf| > |frags[i]| - pos)
  }

  /** The smaller of two counts (`BSON_MIN`). */
  function Min(a: int, b: int): (m: int)
  {
    if a < b then a else b
  }

  /** The chunks still to be sent from cursor position (`i`, `pos`, `buf`). */
  function Drain(frags: seq<seq<byte>>, i: nat, pos: nat, buf: seq<byte>): (chunks: seq<Chunk>)
    requires Cursor(frags, i, pos, buf)
    decreases |frags| - i, if i < |frags| then |frags[i]| - pos else 0
  {
    if i == |frags| then
      if |buf| == 0 then [] else [Tail(buf)]
    else if pos == |frags[i]| then
      Drain(frags, i + 1, 0, buf)
    else if Buffers(frags, i, pos, buf) then
      var n := Min(|frags[i]| - pos, BufferSize - |buf|);
      var filled := buf + frags[i][pos..pos + n];
      if |filled| == BufferSize then [Flush(filled)] + Drain(frags, i, pos + n, [])
      else Drain(frags, i, pos + n, filled)
    else
      [Through(frags[i][pos..], i)] + Drain(frags, i, |frags[i]|, buf)
  }

  /** All chunks for a fragment list, starting with an empty buffer. */
  function Plan(frags: seq<seq<byte>>): (chunks: seq<Chunk>)
  {
    Drain(frags, 0, 0, [])
  }

  /** The bytes a list of chunks carries, in order. */
  function Payload(chunks: seq<Chunk>): (bytes: seq<byte>)
  {
    if |chunks| == 0 then [] else chunks[0].data + Payload(chunks[1..])
  }

  /** The fragment bytes from position (`i`, `pos`) to the end of the list. */
  function Rest(frags: seq<seq<byte>>, i: nat, pos: nat): (rest: seq<byte>)
    requires i <= |frags| && (i < |frags| ==> pos <= |frags[i]|)
  {
    if i == |frags| then [] else frags[i][pos..] + Flatten(frags[i + 1..])
  }

  /** The shape every chunk of a plan has. */
  predicate ChunkShaped(frags: seq<seq<byte>>, c: Chunk)
  {
    && |c.data| > 0
    && (c.Flush? ==> |c.data| == BufferSize)
    && (c.Tail? ==> |c.data| < BufferSize)
    && (c.Through? ==>
          && c.frag < |frags|
          && (|c.data| >= BufferSize || c.frag == |frags| - 1)
          && |c.data| <= |frags[c.frag]|
          && c.data == frags[c.frag][|frags[c.frag]| - |c.data|..])
  }

  lemma {:induction false} PayloadAppend(a: seq<Chunk>, b: seq<Chunk>)
    ensures Payload(a + b) == Payload(a) + Payload(b)
  {
    if |a| == 0 {
      assert a + b == b;
    } else {
      assert (a + b)[1..] == a[1..] + b;
      PayloadAppend(a[1..], b);
    }
  }

  /** Reaching the end of fragment `i` is the same position as the start of fragment `i + 1`. */
  lemma RestNext(frags: seq<seq<byte>>, i: nat)
    requires i < |frags|
    ensures Rest(frags, i, |frags[i]|) == Rest(frags, i + 1, 0)
  {
    if i + 1 < |frags| {
      assert frags[i + 1..][1..] == frags[i + 2..];
      assert frags[i + 1][0..] == frags[i + 1];
    } else {
      assert frags[i + 1..] == [];
    }
  }

  /** Copying `n` bytes of fragment `i` moves them from the rest of the fragments to the buffer. */
  lemma RestAfterCopy(frags: seq<seq<byte>>, i: nat, pos: nat, n: nat)
    requires i < |frags| && pos + n <= |frags[i]|
    ensures Rest(frags, i, pos) == frags[i][pos..pos + n] + Rest(frags, i, pos + n)
  {
    var later := Flatten(frags[i + 1..]);
    assert Rest(frags, i, pos) == frags[i][pos..] + later;
    assert Rest(frags, i, pos + n) == frags[i][pos + n..] + later;
    assert frags[i][pos..] == frags[i][pos..pos + n] + frags[i][pos + n..];
  }

  lemma AppendAssoc(a: seq<byte>, b: seq<byte>, c: seq<byte>)
    ensures a + (b + c) == (a + b) + c
  {
  }

  /** The content step for a copy of `n` bytes that fills the buffer, which is then sent. */
  lemma ContentFlushed(frags: seq<seq<byte>>, i: nat, pos: nat, buf: seq<byte>, n: nat, filled: seq<byte>)
    requires Cursor(frags, i, pos, buf) && i < |frags| && pos < |frags[i]|
    requires Buffers(frags, i, pos, buf)
    requires n == Min(|frags[i]| - pos, BufferSize - |buf|) && filled == buf + frags[i][pos..pos + n]
    requires |filled| == BufferSize
    requires Payload(Drain(frags, i, pos + n, [])) == Rest(frags, i, pos + n)
    ensures Payload(Drain(frags, i, pos, buf)) == buf + Rest(frags, i, pos)
  {
    var later := Drain(frags, i, pos + n, []);
    assert Drain(frags, i, pos, buf) == [Flush(filled)] + later;
    PayloadAppend([Flush(filled)], later);
    assert Payload([Flush(filled)]) == filled;
    RestAfterCopy(frags, i, pos, n);
    AppendAssoc(buf, frags[i][pos..pos + n], Rest(frags, i, pos + n));
  }

  /** The content step for a copy of `n` bytes that leaves the buffer not yet full. */
  lemma ContentCopied(frags: seq<seq<byte>>, i: nat, pos: nat, buf: seq<byte>, n: nat, filled: seq<byte>)
    requires Cursor(frags, i, pos, buf) && i < |frags| && pos < |frags[i]|
    requires Buffers(frags, i, pos, buf)
    requires n == Min(|frags[i]| - pos, BufferSize - |buf|) && filled == buf + frags[i][pos..pos + n]
    requires |filled| < BufferSize
    requires Payload(Drain(frags, i, pos + n, filled)) == filled + Rest(frags, i, pos + n)
    ensures Payload(Drain(frags, i, pos, buf)) == buf + Rest(frags, i, pos)
  {
    assert Drain(frags, i, pos, buf) == Drain(frags, i, pos + n, filled);
    RestAfterCopy(frags, i, pos, n);
    AppendAssoc(buf, frags[i][pos..pos + n], Rest(frags, i, pos + n));
  }

  /** The content step for a remainder written through. */
  lemma ContentThrough(frags: seq<seq<byte>>, i: nat, pos: nat, buf: seq<byte>)
    requires Cursor(frags, i, pos, buf) && i < |frags| && pos < |frags[i]|
    requires !Buffers(frags, i, pos, buf)
    requires Payload(Drain(frags, i, |frags[i]|, buf)) == buf + Rest(frags, i, |frags[i]|)
    ensures Payload(Drain(frags, i, pos, buf)) == buf + Rest(frags, i, pos)
  {
    var later := Drain(frags, i, |frags[i]|, buf);
    var c := Through(frags[i][pos..], i);
    var flat := Flatten(frags[i + 1..]);
    assert buf == [];
    assert Drain(frags, i, pos, buf) == [c] + later;
    assert Payload(later) == flat by {
      assert frags[i][|frags[i]|..] == [];
      assert Rest(frags, i, |frags[i]|) == flat;
    }
    assert Payload([c] + later) == frags[i][pos..] + flat by {
      PayloadAppend([c], later);
      assert Payload([c]) == frags[i][pos..];
    }
    assert Rest(frags, i, pos) == frags[i][pos..] + flat;
  }

  /**
   * Nothing is lost, duplicated or reordered from any position: the chunks
   * still to be sent carry the buffered bytes followed by the rest of the
   * fragments.
   */
  lemma {:induction false} DrainContent(frags: seq<seq<byte>>, i: nat, pos: nat, buf: seq<byte>)
    requires Cursor(frags, i, pos, buf)
    ensures Payload(Drain(frags, i, pos, buf)) == buf + Rest(frags, i, pos)
    decreases |frags| - i, if i < |frags| then |frags[i]| - pos else 0
  {
    if i == |frags| {
    } else if pos == |frags[i]| {
      DrainContent(frags, i + 1, 0, buf);
      RestNext(frags, i);
    } else if Buffers(frags, i, pos, buf) {
      var n := Min(|frags[i]| - pos, BufferSize - |buf|);
      var filled := buf + frags[i][pos..pos + n];
      if |filled| == BufferSize {
        DrainContent(frags, i, pos + n, []);
        ContentFlushed(frags, i, pos, buf, n, filled);
      } else {
        DrainContent(frags, i, pos + n, filled);
        ContentCopied(frags, i, pos, buf, n, filled);
      }
    } else {
      DrainContent(frags, i, |frags[i]|, buf);
      ContentThrough(frags, i, pos, buf);
    }
  }

  /** Content preservation: the plan carries exactly the bytes of the fragments, in order. */
  lemma PlanContent(frags: seq<seq<byte>>)
    ensures Payload(Plan(frags)) == Flatten(frags)
  {
    DrainContent(frags, 0, 0, []);
    if |frags| > 0 {
      assert frags[0][0..] == frags[0];
    }
  }

  /** True when every chunk is shaped and only the last one may be the final flush. */
  predicate Shaped(frags: seq<seq<byte>>, d: seq<Chunk>)
  {
    && (forall k :: 0 <= k < |d| ==> ChunkShaped(frags, d[k]))
    && (forall k :: 0 <= k < |d| - 1 ==> !d[k].Tail?)
  }

  lemma ShapedCons(frags: seq<seq<byte>>, c: Chunk, d: seq<Chunk>)
    requires ChunkShaped(frags, c) && !c.Tail? && Shaped(frags, d)
    ensures Shaped(frags, [c] + d)
  {
    var e := [c] + d;
    forall k | 0 <= k < |e|
      ensures ChunkShaped(frags, e[k])
    {
      if k > 0 {
        assert e[k] == d[k - 1];
      }
    }
    forall k | 0 <= k < |e| - 1
      ensures !e[k].Tail?
    {
      if k > 0 {
        assert e[k] == d[k - 1];
      }
    }
  }

  /** The shape of the chunks still to be sent from any position. */
  lemma {:induction false} DrainShape(frags: seq<seq<byte>>, i: nat, pos: nat, buf: seq<byte>)
    requires Cursor(frags, i, pos, buf)
    ensures Shaped(frags, Drain(frags, i, pos, buf))
    decreases |frags| - i, if i < |frags| then |frags[i]| - pos else 0
  {
    if i == |frags| {
    } else if pos == |frags[i]| {
      assert Drain(frags, i, pos, buf) == Drain(frags, i + 1, 0, buf);
      DrainShape(frags, i + 1, 0, buf);
    } else if Buffers(frags, i, pos, buf) {
      var n := Min(|frags[i]| - pos, BufferSize - |buf|);
      var filled := buf + frags[i][pos..pos + n];
      if |filled| == BufferSize {
        assert Drain(frags, i, pos, buf) == [Flush(filled)] + Drain(frags, i, pos + n, []);
        DrainShape(frags, i, pos + n, []);
        ShapedCons(frags, Flush(filled), Drain(frags, i, pos + n, []));
      } else {
        assert Drain(frags, i, pos, buf) == Drain(frags, i, pos + n, filled);
        DrainShape(frags, i, pos + n, filled);
      }
    } else {
      var c := Through(frags[i][pos..], i);
      assert Drain(frags, i, pos, buf) == [c] + Drain(frags, i, |frags[i]|, buf);
      assert c.data == frags[i][|frags[i]| - |c.data|..];
      DrainShape(frags, i, |frags[i]|, buf);
      ShapedCons(frags, c, Drain(frags, i, |frags[i]|, buf));
    }
  }

  /**
   * Chunk shape: every chunk is non-empty; a chunk flushed from the full
   * buffer holds exactly 4096 bytes; the final flush of leftover buffered
   * bytes holds 1 to 4095 bytes and comes last; a chunk written through is
   * the untouched end of its fragment, and is either at least 4096 bytes
   * long or comes from the last fragment.
   */
  lemma PlanShape(frags: seq<seq<byte>>)
    ensures forall k :: 0 <= k < |Plan(frags)| ==> ChunkShaped(frags, Plan(frags)[k])
    ensures forall k :: 0 <= k < |Plan(frags)| - 1 ==> !Plan(frags)[k].Tail?
  {
    DrainShape(frags, 0, 0, []);
  }

  /**
   * From any position, a chunk written through leaves nothing behind in the
   * buffer: the chunks after it carry exactly the bytes of the fragments
   * after its own.
   */
  lemma {:induction false} DrainThroughOrder(frags: seq<seq<byte>>, i: nat, pos: nat, buf: seq<byte>, k: nat)
    requires Cursor(frags, i, pos, buf)
    requires k < |Drain(frags, i, pos, buf)| && Drain(frags, i, pos, buf)[k].Through?
    ensures var d := Drain(frags, i, pos, buf);
            && d[k].frag < |frags|
            && Payload(d[k + 1..]) == Rest(frags, d[k].frag, |frags[d[k].frag]|)
    decreases |frags| - i, if i < |frags| then |frags[i]| - pos else 0
  {
    var d := Drain(frags, i, pos, buf);
    if i == |frags| {
      assert false;
    } else if pos == |frags[i]| {
      DrainThroughOrder(frags, i + 1, 0, buf, k);
    } else if Buffers(frags, i, pos, buf) {
      var n := Min(|frags[i]| - pos, BufferSize - |buf|);
      var filled := buf + frags[i][pos..pos + n];
      if |filled| == BufferSize {
        var later := Drain(frags, i, pos + n, []);
        assert d == [Flush(filled)] + later;
        DrainThroughOrder(frags, i, pos + n, [], k - 1);
        assert d[k + 1..] == later[k..];
      } else {
        assert d == Drain(frags, i, pos + n, filled);
        DrainThroughOrder(frags, i, pos + n, filled, k);
      }
    } else {
      var later := Drain(frags, i, |frags[i]|, buf);
      assert d == [Through(frags[i][pos..], i)] + later;
      if k == 0 {
        assert d[1..] == later;
        DrainContent(frags, i, |frags[i]|, buf);
      } else {
        DrainThroughOrder(frags, i, |frags[i]|, buf, k - 1);
        assert d[k + 1..] == later[k..];
      }
    }
  }

  /**
   * Routing rule: a fragment's remainder is written through only when nothing
   * is buffered, so the writes up to and including it carry exactly the bytes
   * of the fragments up to the end of that fragment, in order.
   */
  lemma ThroughSendsEverythingBefore(frags: seq<seq<byte>>, k: nat)
    requires k < |Plan(frags)| && Plan(frags)[k].Through?
    ensures Plan(frags)[k].frag < |frags|
    ensures Payload(Plan(frags)[..k + 1]) == Flatten(frags[..Plan(frags)[k].frag + 1])
  {
    var plan := Plan(frags);
    DrainThroughOrder(frags, 0, 0, [], k);
    var j := plan[k].frag;
    var after := Flatten(frags[j + 1..]);
    assert Payload(plan[k + 1..]) == after;
    PlanContent(frags);
    assert plan == plan[..k + 1] + plan[k + 1..];
    PayloadAppend(plan[..k + 1], plan[k + 1..]);
    assert frags == frags[..j + 1] + frags[j + 1..];
    FlattenAppend(frags[..j + 1], frags[j + 1..]);
    var sent := Payload(plan[..k + 1]);
    var upTo := Flatten(frags[..j + 1]);
    assert upTo + after == sent + after;
    assert |upTo| == |sent|;
    assert upTo == (upTo + after)[..|upTo|];
  }

  /** From a position with nothing buffered and no bytes left, nothing more is sent. */
  lemma {:induction false} DrainNothingLeft(frags: seq<seq<byte>>, i: nat, pos: nat)
    requires Cursor(frags, i, pos, [])
    requires Rest(frags, i, pos) == []
    ensures Drain(frags, i, pos, []) == []
    decreases |frags| - i
  {
    if i < |frags| {
      assert |frags[i][pos..]| == 0;
      RestNext(frags, i);
      DrainNothingLeft(frags, i + 1, 0);
    }
  }

  /** A copy that fills the buffer with all the bytes left sends exactly one chunk. */
  lemma OneChunkFlush(frags: seq<seq<byte>>, i: nat, pos: nat, buf: seq<byte>)
    requires Cursor(frags, i, pos, buf) && i < |frags| && pos < |frags[i]|
    requires Buffers(frags, i, pos, buf)
    requires |buf| + |Rest(frags, i, pos)| <= BufferSize
    requires |buf| + Min(|frags[i]| - pos, BufferSize - |buf|) == BufferSize
    ensures |Drain(frags, i, pos, buf)| == 1
  {
    var n := Min(|frags[i]| - pos, BufferSize - |buf|);
    var filled := buf + frags[i][pos..pos + n];
    assert Rest(frags, i, pos + n) == [] by {
      RestAfterCopy(frags, i, pos, n);
    }
    DrainNothingLeft(frags, i, pos + n);
    assert Drain(frags, i, pos, buf) == [Flush(filled)] + [];
  }

  /** A remainder written through with at most one buffer's worth left is the only chunk. */
  lemma OneChunkThrough(frags: seq<seq<byte>>, i: nat, pos: nat, buf: seq<byte>)
    requires Cursor(frags, i, pos, buf) && i < |frags| && pos < |frags[i]|
    requires !Buffers(frags, i, pos, buf)
    requires |buf| + |Rest(frags, i, pos)| <= BufferSize
    ensures |Drain(frags, i, pos, buf)| == 1
  {
    assert Rest(frags, i, |frags[i]|) == [] by {
      RestAfterCopy(frags, i, pos, |frags[i]| - pos);
      if i + 1 == |frags| {
        assert frags[i + 1..] == [];
      }
    }
    DrainNothingLeft(frags, i, |frags[i]|);
    assert Drain(frags, i, pos, buf) == [Through(frags[i][pos..], i)] + [];
  }

  /** A copy that leaves the buffer not full keeps the count of bytes still to send. */
  lemma CopyKeepsBytesLeft(frags: seq<seq<byte>>, i: nat, pos: nat, buf: seq<byte>)
    requires Cursor(frags, i, pos, buf) && i < |frags| && pos < |frags[i]|
    requires var n := Min(|frags[i]| - pos, BufferSize - |buf|);
             |buf| + n < BufferSize
    ensures var n := Min(|frags[i]| - pos, BufferSize - |buf|);
            var filled := buf + frags[i][pos..pos + n];
            && Cursor(frags, i, pos + n, filled)
            && |filled| + |Rest(frags, i, pos + n)| == |buf| + |Rest(frags, i, pos)|
  {
    var n := Min(|frags[i]| - pos, BufferSize - |buf|);
    RestAfterCopy(frags, i, pos, n);
  }

  /** From a position where at most one buffer's worth of bytes is left, exactly one chunk is sent. */
  lemma {:induction false} DrainOneChunk(frags: seq<seq<byte>>, i: nat, pos: nat, buf: seq<byte>)
    requires Cursor(frags, i, pos, buf)
    requires 0 < |buf| + |Rest(frags, i, pos)| <= BufferSize
    ensures |Drain(frags, i, pos, buf)| == 1
    decreases |frags| - i, if i < |frags| then |frags[i]| - pos else 0
  {
    if i == |frags| {
    } else if pos == |frags[i]| {
      RestNext(frags, i);
      DrainOneChunk(frags, i + 1, 0, buf);
    } else if Buffers(frags, i, pos, buf) {
      var n := Min(|frags[i]| - pos, BufferSize - |buf|);
      var filled := buf + frags[i][pos..pos + n];
      if |filled| == BufferSize {
        OneChunkFlush(frags, i, pos, buf);
      } else {
        CopyKeepsBytesLeft(frags, i, pos, buf);
        DrainOneChunk(frags, i, pos + n, filled);
        assert Drain(frags, i, pos, buf) == Drain(frags, i, pos + n, filled);
      }
    } else {
      OneChunkThrough(frags, i, pos, buf);
    }
  }

  /**
   * Fragments that together fit in the scratch buffer, and are not all empty,
   * reach the engine as one write carrying all of their bytes in order.
   */
  lemma SmallWriteIsOneCall(frags: seq<seq<byte>>)
    requires 0 < |Flatten(frags)| <= BufferSize
    ensures |Plan(frags)| == 1
    ensures Plan(frags)[0].data == Flatten(frags)
  {
    assert frags[0][0..] == frags[0];
    assert Rest(frags, 0, 0) == Flatten(frags);
    DrainOneChunk(frags, 0, 0, []);
    PlanContent(frags);
    assert Payload(Plan(frags)) == Plan(frags)[0].data + Payload([]);
  }

  /**
   * Fragments of 10, 4070 and 50 bytes reach the engine as two writes of
   * 4096 and 34 bytes: the first two fragments are buffered, the third tops
   * the buffer up to full, and what is left of it is written through.
   */
  lemma TenThenFillThenFifty(a: seq<byte>, b: seq<byte>, c: seq<byte>)
    requires |a| == 10 && |b| == 4070 && |c| == 50
    ensures Plan([a, b, c]) == [Flush(a + b + c[..16]), Through(c[16..], 2)]
    ensures |Plan([a, b, c])[0].data| == 4096 && |Plan([a, b, c])[1].data| == 34
  {
    var f := [a, b, c];
    assert [] + f[0][0..10] == a;
    assert a + f[1][0..4070] == a + b;
    assert (a + b) + f[2][0..16] == a + b + c[..16];
    assert f[2][16..] == c[16..];
    calc {
      Plan(f);
      Drain(f, 0, 0, []);
      Drain(f, 0, 10, a);
      Drain(f, 1, 0, a);
      Drain(f, 1, 4070, a + b);
      Drain(f, 2, 0, a + b);
      [Flush(a + b + c[..16])] + Drain(f, 2, 16, []);
      [Flush(a + b + c[..16])] + ([Through(c[16..], 2)] + Drain(f, 2, 50, []));
      [Flush(a + b + c[..16])] + ([Through(c[16..], 2)] + Drain(f, 3, 0, []));
      [Flush(a + b + c[..16]), Through(c[16..], 2)];
    }
  }

  /**
   * A fragment larger than the buffer is not written through when bytes are
   * already buffered: with fragments of 10, 5000 and 10 bytes, the large one
   * tops the buffer up to a full 4096-byte write, and its last 914 bytes are
   * buffered again and leave, with the final fragment, in the final flush.
   */
  lemma LargeFragmentAfterBufferedBytes(a: seq<byte>, b: seq<byte>, c: seq<byte>)
    requires |a| == 10 && |b| == 5000 && |c| == 10
    ensures Plan([a, b, c]) == [Flush(a + b[..4086]), Tail(b[4086..] + c)]
    ensures forall k :: 0 <= k < |Plan([a, b, c])| ==> !Plan([a, b, c])[k].Through?
  {
    var f := [a, b, c];
    assert [] + f[0][0..10] == a;
    assert a + f[1][0..4086] == a + b[..4086];
    assert [] + f[1][4086..5000] == b[4086..];
    assert b[4086..] + f[2][0..10] == b[4086..] + c;
    calc {
      Plan(f);
      Drain(f, 0, 0, []);
      Drain(f, 0, 10, a);
      Drain(f, 1, 0, a);
      [Flush(a + b[..4086])] + Drain(f, 1, 4086, []);
      [Flush(a + b[..4086])] + Drain(f, 1, 5000, b[4086..]);
      [Flush(a + b[..4086])] + Drain(f, 2, 0, b[4086..]);
      [Flush(a + b[..4086])] + Drain(f, 2, 10, b[4086..] + c);
      [Flush(a + b[..4086])] + Drain(f, 3, 0, b[4086..] + c);
      [Flush(a + b[..4086]), Tail(b[4086..] + c)];
    }
  }
}
