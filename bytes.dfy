/** Byte buffers as the reader sees them: a `Uint8Array` indexed out of range yields
    `undefined`, which JavaScript's bitwise operators read as 0; `slice` and `subarray`
    clamp their bounds the way typed arrays do. */
module Bytes {

  type byte = x: int | 0 <= x < 0x100

  /** `buffer[i]` as an operand of `|` or `<<`: a missing byte counts as 0. */
  function At(s: seq<byte>, i: int): byte {
    if 0 <= i < |s| then s[i] else 0
  }

  /** The index a typed-array `slice`/`subarray` bound denotes: a negative bound counts
      from the end and is floored at 0, a positive one is capped at the length. */
  function RelativeIndex(i: int, len: nat): (k: nat)
    ensures k <= len
    ensures 0 <= i <= len ==> k == i
    ensures i < 0 ==> k == if len + i < 0 then 0 else len + i
    ensures i > len ==> k == len
  {
    if i < 0 then (if len + i < 0 then 0 else len + i)
    else if i < len then i
    else len
  }

  /** `s.slice(begin, end)` and `s.subarray(begin, end)` over the bytes they denote. */
  function Slice(s: seq<byte>, begin: int, end: int): (r: seq<byte>)
    ensures |r| <= |s|
    ensures 0 <= begin <= end <= |s| ==> r == s[begin..end]
    ensures RelativeIndex(begin, |s|) + |r| <= |s| && r == s[RelativeIndex(begin, |s|)..RelativeIndex(begin, |s|) + |r|]
    ensures |r| == if RelativeIndex(begin, |s|) < RelativeIndex(end, |s|)
                   then RelativeIndex(end, |s|) - RelativeIndex(begin, |s|) else 0
  {
    var lo := RelativeIndex(begin, |s|);
    var hi := RelativeIndex(end, |s|);
    if lo < hi then s[lo..hi] else []
  }

  /** The chunks of a stream joined in arrival order. */
  function Flatten(chunks: seq<seq<byte>>): seq<byte> {
    if |chunks| == 0 then [] else Flatten(chunks[..|chunks| - 1]) + chunks[|chunks| - 1]
  }

  lemma {:induction false} FlattenAppend(a: seq<seq<byte>>, b: seq<seq<byte>>)
    ensures Flatten(a + b) == Flatten(a) + Flatten(b)
    decreases |b|
  {
    if |b| == 0 {
      assert a + b == a;
    } else {
      var b' := b[..|b| - 1];
      assert (a + b)[..|a + b| - 1] == a + b';
      FlattenAppend(a, b');
    }
  }

  /** Joining a prefix of the chunks gives a prefix of the joined stream. */
  lemma {:induction false} FlattenPrefix(chunks: seq<seq<byte>>, i: nat)
    requires i <= |chunks|
    ensures |Flatten(chunks[..i])| <= |Flatten(chunks)|
    ensures Flatten(chunks) == Flatten(chunks[..i]) + Flatten(chunks[i..])
  {
    assert chunks == chunks[..i] + chunks[i..];
    FlattenAppend(chunks[..i], chunks[i..]);
  }

  /** A slice up to the end of `x` is the same with or without what follows `x`. */
  lemma SliceBeforeSuffix(x: seq<byte>, y: seq<byte>, o: nat, n: nat)
    ensures o + n <= |x| ==> (x + y)[o..o + n] == x[o..o + n]
  {
  }
}
