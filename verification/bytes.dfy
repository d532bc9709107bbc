/** Byte ranges and the vectored buffers (iovec arrays) the stream operates on. */
module Bytes {

  /** One octet, as stored in a `char` buffer. */
  newtype byte = b: int | 0 <= b < 0x100

  /** The bytes of a list of ranges, laid end to end in order. */
  function Flatten(parts: seq<seq<byte>>): (flat: seq<byte>)
  {
    if |parts| == 0 then [] else parts[0] + Flatten(parts[1..])
  }

  /** Laying out two lists one after the other is laying out their concatenation. */
  lemma {:induction false} FlattenAppend(a: seq<seq<byte>>, b: seq<seq<byte>>)
    ensures Flatten(a + b) == Flatten(a) + Flatten(b)
  {
    if |a| == 0 {
      assert a + b == b;
    } else {
      assert (a + b)[1..] == a[1..] + b;
      FlattenAppend(a[1..], b);
    }
  }

  /** Range `i` sits between the ranges before it and the ranges after it. */
  lemma {:induction false} FlattenSplit(s: seq<seq<byte>>, i: nat)
    requires i < |s|
    ensures Flatten(s) == Flatten(s[..i]) + s[i] + Flatten(s[i + 1..])
  {
    var rest := [s[i]] + s[i + 1..];
    assert s == s[..i] + rest;
    FlattenAppend(s[..i], rest);
    assert rest[0] == s[i] && rest[1..] == s[i + 1..];
    assert Flatten(rest) == s[i] + Flatten(s[i + 1..]);
  }

  /** Two lists of ranges with the same lengths, range by range, lay out to the same length. */
  lemma {:induction false} SameShapeSameLength(a: seq<seq<byte>>, b: seq<seq<byte>>)
    requires |a| == |b|
    requires forall k :: 0 <= k < |a| ==> |a[k]| == |b[k]|
    ensures |Flatten(a)| == |Flatten(b)|
  {
    if |a| > 0 {
      SameShapeSameLength(a[1..], b[1..]);
    }
  }

  /**
   * Overwriting `|d|` bytes of range `i` at offset `pos` overwrites the same
   * bytes of the laid-out list, at offset `|Flatten(s[..i])| + pos`.
   */
  lemma {:induction false} FlattenUpdate(s: seq<seq<byte>>, i: nat, pos: nat, d: seq<byte>)
    requires i < |s| && pos + |d| <= |s[i]|
    ensures var off := |Flatten(s[..i])| + pos;
            && off + |d| <= |Flatten(s)|
            && Flatten(s[i := s[i][..pos] + d + s[i][pos + |d|..]])
               == Flatten(s)[..off] + d + Flatten(s)[off + |d|..]
  {
    var t := s[i := s[i][..pos] + d + s[i][pos + |d|..]];
    FlattenSplit(s, i);
    FlattenSplit(t, i);
    assert t[..i] == s[..i];
    assert t[i + 1..] == s[i + 1..];
    var pre, post := Flatten(s[..i]), Flatten(s[i + 1..]);
    var off := |pre| + pos;
    assert Flatten(s)[..off] == pre + s[i][..pos];
    assert Flatten(s)[off + |d|..] == s[i][pos + |d|..] + post;
  }
}
