/** The HTTP `Range` header as both sides handle it. The reader writes
    `bytes=-${count}` (the last `count` bytes) and `bytes=${first}-${last}` (an inclusive
    span), formatting JavaScript numbers in decimal; the mock servers recognise it with
    the unanchored regular expression `/bytes=(\d*)-(\d*)/`, take an empty group for
    "absent" and read a present one with `parseInt(group, 10)`. */
module RangeHeader {
  import opened Wrappers

  predicate IsDigit(c: char) {
    '0' <= c <= '9'
  }

  predicate AllDigits(s: string) {
    forall k :: 0 <= k < |s| ==> IsDigit(s[k])
  }

  function DigitChar(d: nat): (c: char)
    requires d < 10
    ensures IsDigit(c)
  {
    (('0' as int) + d) as char
  }

  function DigitValue(c: char): (d: nat)
    requires IsDigit(c)
    ensures d < 10
  {
    (c as int) - ('0' as int)
  }

  /** The decimal digits of a natural number, without leading zeros. */
  function Decimal(n: nat): (s: string)
    ensures |s| >= 1 && AllDigits(s)
  {
    if n < 10 then [DigitChar(n)] else Decimal(n / 10) + [DigitChar(n % 10)]
  }

  /** `${x}` for an integral JavaScript number. */
  function NumberToString(x: int): string {
    if x < 0 then "-" + Decimal(-x) else Decimal(x)
  }

  /** `parseInt(digits, 10)` of a non-empty run of decimal digits. */
  function ParseDecimal(s: string): nat
    requires AllDigits(s)
  {
    if |s| == 0 then 0 else 10 * ParseDecimal(s[..|s| - 1]) + DigitValue(s[|s| - 1])
  }

  /** The header the reader sends for the last `count` bytes, index.js:12. */
  function LastBytesRange(count: int): string {
    "bytes=-" + NumberToString(count)
  }

  /** The header the reader sends for the inclusive span `[first, last]`, index.js:27
      and index.js:137. */
  function ByteRange(first: int, last: int): string {
    "bytes=" + NumberToString(first) + "-" + NumberToString(last)
  }

  // ----- The regular expression /bytes=(\d*)-(\d*)/ -----

  /** The end of the longest run of digits starting at `i`: where a greedy `\d*` stops. */
  function DigitRunEnd(s: string, i: nat): (j: nat)
    requires i <= |s|
    ensures i <= j <= |s|
    ensures forall k :: i <= k < j ==> IsDigit(s[k])
    ensures j == |s| || !IsDigit(s[j])
    decreases |s| - i
  {
    if i < |s| && IsDigit(s[i]) then DigitRunEnd(s, i + 1) else i
  }

  /** Whether the pattern matches at position `p`. A shorter digit run than the longest
      one is followed by a digit, never by `-`, so backtracking cannot help. */
  predicate MatchesAt(s: string, p: nat) {
    p + 6 <= |s| && s[p..p + 6] == "bytes=" &&
    DigitRunEnd(s, p + 6) < |s| && s[DigitRunEnd(s, p + 6)] == '-'
  }

  /** The captures of a match: `matches[1]` and `matches[2]` read through
      `matches[i] ? parseInt(matches[i], 10) : null`; an empty capture is falsy. */
  datatype RangeMatch = RangeMatch(start: Option<nat>, end: Option<nat>)

  function Capture(s: string, i: nat, j: nat): Option<nat>
    requires i <= j <= |s| && AllDigits(s[i..j])
  {
    if i == j then None else Some(ParseDecimal(s[i..j]))
  }

  function CapturesAt(s: string, p: nat): RangeMatch
    requires MatchesAt(s, p)
  {
    var d := DigitRunEnd(s, p + 6);
    var e := DigitRunEnd(s, d + 1);
    assert AllDigits(s[p + 6..d]) && AllDigits(s[d + 1..e]);
    RangeMatch(Capture(s, p + 6, d), Capture(s, d + 1, e))
  }

  /** The leftmost position at or after `p` where the pattern matches, as
      `String.prototype.match` finds it. */
  function MatchPosition(s: string, p: nat): (r: Option<nat>)
    requires p <= |s|
    ensures r.None? <==> forall q :: p <= q <= |s| ==> !MatchesAt(s, q)
    ensures r.Some? ==> p <= r.value <= |s| && MatchesAt(s, r.value) &&
                        forall q :: p <= q < r.value ==> !MatchesAt(s, q)
    decreases |s| - p
  {
    if MatchesAt(s, p) then Some(p)
    else if p == |s| then None
    else MatchPosition(s, p + 1)
  }

  /** `range.match(/bytes=(\d*)-(\d*)/)`, reduced to its two captures. */
  function MatchRange(s: string): Option<RangeMatch> {
    match MatchPosition(s, 0)
    case None => None
    case Some(p) => Some(CapturesAt(s, p))
  }

  // ----- The two request forms are recognised as intended -----

  /** The decimal form of `n` reads back as `n`. */
  lemma {:induction false} ParseDecimalOfDecimal(n: nat)
    ensures ParseDecimal(Decimal(n)) == n
  {
    if n >= 10 {
      var s := Decimal(n);
      assert s[..|s| - 1] == Decimal(n / 10);
      ParseDecimalOfDecimal(n / 10);
    }
  }

  lemma {:induction false} DigitRunEndAt(s: string, i: nat, j: nat)
    requires i <= j <= |s|
    requires AllDigits(s[i..j]) && (j == |s| || !IsDigit(s[j]))
    ensures DigitRunEnd(s, i) == j
    decreases j - i
  {
    if i < j {
      assert IsDigit(s[i..j][0]);
      assert s[i + 1..j] == s[i..j][1..];
      DigitRunEndAt(s, i + 1, j);
    }
  }

  /** A span header written by the reader with non-negative bounds is recognised with
      both captures present and equal to those bounds. */
  lemma MatchByteRange(s: string, first: nat, last: nat)
    requires s == ByteRange(first, last)
    ensures MatchRange(s) == Some(RangeMatch(Some(first), Some(last)))
  {
    var a, b := Decimal(first), Decimal(last);
    assert s == "bytes=" + a + "-" + b;
    var d := 6 + |a|;
    assert s[6..d] == a;
    DigitRunEndAt(s, 6, d);
    assert s[0..6] == "bytes=";
    assert MatchesAt(s, 0);
    assert s[d + 1..|s|] == b;
    DigitRunEndAt(s, d + 1, |s|);
    ParseDecimalOfDecimal(first);
    ParseDecimalOfDecimal(last);
  }

  /** A suffix header written by the reader with a non-negative count is recognised with
      an absent start and the count as its end. */
  lemma MatchLastBytes(s: string, count: nat)
    requires s == LastBytesRange(count)
    ensures MatchRange(s) == Some(RangeMatch(None, Some(count)))
  {
    var c := Decimal(count);
    assert s == "bytes=" + "-" + c;
    DigitRunEndAt(s, 6, 6);
    assert s[0..6] == "bytes=";
    assert MatchesAt(s, 0);
    assert s[7..|s|] == c;
    DigitRunEndAt(s, 7, |s|);
    ParseDecimalOfDecimal(count);
  }
}
