/** The byte selection both mock range sources share, MockHTTPServer.js:45-54 and
    MockS3Client.js:28-36: a matched `Range` header cuts the stored content with
    `subarray`, whose bounds clamp the way typed arrays do. */
module MockRange {
  import opened Bytes
  import opened Wrappers
  import opened RangeHeader

  /** The `subarray` chain after a match: both bounds give the inclusive span, a start
      alone the rest from it, an end alone `subarray(length - end)`; with neither the
      content is left as it is (a case the S3 mock refuses before getting here). */
  function SelectRange(content: seq<byte>, m: RangeMatch): seq<byte> {
    match m
    case RangeMatch(Some(start), Some(end)) => Slice(content, start, end + 1)
    case RangeMatch(Some(start), None) => Slice(content, start, |content|)
    case RangeMatch(None, Some(end)) => Slice(content, |content| - end, |content|)
    case RangeMatch(None, None) => content
  }

  function Min(a: int, b: int): int {
    if a < b then a else b
  }

  function Max(a: int, b: int): int {
    if a < b then b else a
  }

  /** What each form selects once the clamping is written out: a span is cut to the
      content and empty when it is reversed; a start past the end selects nothing; a
      suffix no longer than the content selects its last `end` bytes, and a longer one
      starts at `2 * length - end`, floored at 0. */
  lemma SelectRangeSpec(content: seq<byte>, m: RangeMatch)
    ensures var n := |content|;
            var r := SelectRange(content, m);
            && (m.start.Some? && m.end.Some? ==>
                  var lo, hi := Min(m.start.value, n), Min(m.end.value + 1, n);
                  r == if lo < hi then content[lo..hi] else [])
            && (m.start.Some? && m.end.None? ==>
                  r == if m.start.value <= n then content[m.start.value..] else [])
            && (m.start.None? && m.end.Some? ==>
                  r == if m.end.value <= n then content[n - m.end.value..]
                       else content[Max(2 * n - m.end.value, 0)..])
            && (m.start.None? && m.end.None? ==> r == content)
  {
  }

  /** Bounds inside the content are taken literally: the span holds `end - start + 1`
      bytes from `start` (none when reversed), a start alone the bytes from it, an end
      alone the last `end` bytes. */
  lemma SelectRangeInBounds(content: seq<byte>, m: RangeMatch)
    requires m.start.Some? ==> m.start.value < |content|
    requires m.end.Some? ==> m.end.value < |content|
    ensures var n := |content|;
            var r := SelectRange(content, m);
            && (m.start.Some? && m.end.Some? ==>
                  r == if m.start.value <= m.end.value then content[m.start.value..m.end.value + 1] else [])
            && (m.start.Some? && m.end.None? ==> r == content[m.start.value..])
            && (m.start.None? && m.end.Some? ==> r == content[n - m.end.value..] && |r| == m.end.value)
  {
    SelectRangeSpec(content, m);
  }

  /** An inclusive span inside the content selects exactly its bytes. */
  lemma SelectSpan(content: seq<byte>, first: nat, last: nat)
    requires first <= last < |content|
    ensures SelectRange(content, RangeMatch(Some(first), Some(last))) == content[first..last + 1]
  {
  }

  /** A suffix no longer than the content selects its last `count` bytes. */
  lemma SelectSuffix(content: seq<byte>, count: nat)
    requires count <= |content|
    ensures SelectRange(content, RangeMatch(None, Some(count))) == content[|content| - count..]
  {
  }
}
