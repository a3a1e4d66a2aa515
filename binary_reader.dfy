/** The little-endian field readers of index.js and the JavaScript integer operators they
    are written with. `readUint16LE` and `readUint32LE` combine bytes with `|` and `<<`,
    which work on signed 32-bit integers, so `readUint32LE` yields a value in
    [-2^31, 2^31): a field whose top byte is 0x80 or more reads as negative. */
module BinaryReader {
  import opened Bytes
  import opened Wrappers
  import opened Errors


  function Pow2(k: nat): nat {
    if k == 0 then 1 else 2 * Pow2(k - 1)
  }

  /** ECMAScript ToUint32 of an integral number. */
  function ToUint32(x: int): nat {
    x % 0x1_0000_0000
  }

  /** ECMAScript ToInt32 of an integral number. */
  function ToInt32(x: int): int {
    var u := ToUint32(x);
    if u >= 0x8000_0000 then u - 0x1_0000_0000 else u
  }

  predicate IsInt32(v: int) {
    -0x8000_0000 <= v < 0x8000_0000
  }

  /** Bitwise OR of two naturals, bit by bit from the least significant one. */
  function OrBits(a: nat, b: nat): nat
    decreases a + b
  {
    if a == 0 then b
    else if b == 0 then a
    else 2 * OrBits(a / 2, b / 2) + (if a % 2 == 1 || b % 2 == 1 then 1 else 0)
  }

  /** JavaScript `x | y`. */
  function Or(x: int, y: int): int {
    ToInt32(OrBits(ToUint32(x), ToUint32(y)))
  }

  /** JavaScript `x << k` for a shift count below 32. */
  function Shl(x: int, k: nat): int
    requires k < 32
  {
    ToInt32(ToUint32(x) * Pow2(k))
  }

  /** `readUint16LE(buffer, offset)`, index.js:192-194, as the number it denotes; that
      this is what `buffer[offset] | (buffer[offset + 1] << 8)` computes is
      `ReadUint16LEIsBitwise`. */
  function ReadUint16LE(b: seq<byte>, o: int): (r: int)
    ensures 0 <= r < 0x1_0000
  {
    At(b, o) + 0x100 * At(b, o + 1)
  }

  /** `readUint32LE(buffer, offset)`, index.js:185-190, as the number it denotes: the
      four bytes read as a little-endian number, less 2^32 when that number has bit 31
      set; that this is what the `|`/`<<` expression computes is
      `ReadUint32LEIsBitwise`. */
  function ReadUint32LE(b: seq<byte>, o: int): (r: int)
    ensures IsInt32(r)
  {
    At(b, o) + 0x100 * At(b, o + 1) + 0x1_0000 * At(b, o + 2) + 0x100_0000 * At(b, o + 3)
    - (if At(b, o + 3) < 0x80 then 0 else 0x1_0000_0000)
  }

  /** The JavaScript expression of `readUint16LE` denotes the little-endian sum of its
      two bytes; a byte past the end of the buffer counts as 0. */
  lemma ReadUint16LEIsBitwise(b: seq<byte>, o: int)
    ensures ReadUint16LE(b, o) == Or(At(b, o), Shl(At(b, o + 1), 8))
    ensures o >= 0 && o + 1 < |b| ==> ReadUint16LE(b, o) == b[o] as int + 0x100 * (b[o + 1] as int)
  {
    var b0, b1 := At(b, o), At(b, o + 1);
    var sum: int := b0 as int + 0x100 * (b1 as int);
    Uint32Id(b0);
    OrShiftedByte(b0, b0, b1, 8, 0x100);
    assert 0 <= sum < 0x1_0000;
    Uint32Id(sum);
    assert ToInt32(sum) == sum;
  }

  /** The JavaScript expression of `readUint32LE` denotes the little-endian sum of its
      four bytes as a signed 32-bit integer: the sum itself when the top byte is below
      0x80, the sum less 2^32 otherwise. */
  lemma ReadUint32LEIsBitwise(b: seq<byte>, o: int)
    ensures ReadUint32LE(b, o)
            == Or(Or(Or(At(b, o), Shl(At(b, o + 1), 8)), Shl(At(b, o + 2), 16)), Shl(At(b, o + 3), 24))
    ensures var sum := At(b, o) + 0x100 * At(b, o + 1) + 0x1_0000 * At(b, o + 2) + 0x100_0000 * At(b, o + 3);
            && (At(b, o + 3) < 0x80 ==> ReadUint32LE(b, o) == sum)
            && (At(b, o + 3) >= 0x80 ==> ReadUint32LE(b, o) == sum - 0x1_0000_0000)
  {
    var b0, b1, b2, b3 := At(b, o), At(b, o + 1), At(b, o + 2), At(b, o + 3);
    Read32Sum(b0, b1, b2, b3);
    Int32OfSum(b0, b1, b2, b3);
  }

  /** The bounds check of `readUtf8String(array, start, end)`, index.js:196-206; what
      it returns is the byte range that `TextDecoder` decodes. */
  function ReadUtf8String(b: seq<byte>, start: int, end: int): (r: Result<seq<byte>, Error>)
    ensures r.Err? <==> start < 0 || end > |b| || start >= end
    ensures r.Err? ==> r.error == RangeError
    ensures r.Ok? ==> |r.value| == end - start > 0 && r.value == b[start..end]
  {
    if start < 0 || end > |b| || start >= end then Err(RangeError)
    else Ok(b[start..end])
  }

  // ----- Little-endian encodings, the inverse of the readers -----

  /** The `n` low-order bytes of `v` in two's complement, least significant first. */
  function LittleEndian(v: int, n: nat): (r: seq<byte>)
    ensures |r| == n
    decreases n
  {
    if n == 0 then [] else [v % 0x100] + LittleEndian(v / 0x100, n - 1)
  }

  function LE16(v: int): (r: seq<byte>)
    ensures |r| == 2
  {
    LittleEndian(v, 2)
  }

  function LE32(v: int): (r: seq<byte>)
    ensures |r| == 4
  {
    LittleEndian(v, 4)
  }

  /** Reading two bytes that encode `v` gives `v` back. */
  lemma ReadUint16LEOfLE16(b: seq<byte>, o: int, v: nat)
    requires v < 0x1_0000
    requires 0 <= o && o + 2 <= |b| && b[o..o + 2] == LE16(v)
    ensures ReadUint16LE(b, o) == v
  {
    var e := LE16(v);
    assert e == [v % 0x100] + LittleEndian(v / 0x100, 1);
    assert LittleEndian(v / 0x100, 1) == [(v / 0x100) % 0x100] + LittleEndian(v / 0x1_0000, 0);
    assert b[o] == e[0] && b[o + 1] == e[1];
  }

  /** Reading four bytes that encode `v` gives `v` as a signed 32-bit integer: `v`
      itself below 2^31, `v - 2^32` from there on. */
  lemma ReadUint32LEOfLE32(b: seq<byte>, o: int, v: nat)
    requires v < 0x1_0000_0000
    requires 0 <= o && o + 4 <= |b| && b[o..o + 4] == LE32(v)
    ensures ReadUint32LE(b, o) == ToInt32(v)
    ensures ReadUint32LE(b, o) == if v < 0x8000_0000 then v else v - 0x1_0000_0000
  {
    var e := LE32(v);
    assert b[o] == e[0] && b[o + 1] == e[1] && b[o + 2] == e[2] && b[o + 3] == e[3];
    LE32Sum(v);
  }

  /** The four bytes from which a signed 32-bit read returns `v`. */
  function LE32Signed(v: int): (r: seq<byte>)
    ensures |r| == 4
  {
    LE32(ToUint32(v))
  }

  lemma ReadUint32LEOfLE32Signed(b: seq<byte>, o: int, v: int)
    requires IsInt32(v)
    requires 0 <= o && o + 4 <= |b| && b[o..o + 4] == LE32Signed(v)
    ensures ReadUint32LE(b, o) == v
  {
    ReadUint32LEOfLE32(b, o, ToUint32(v));
    Int32OfUint32(v);
  }

  lemma Int32OfUint32(v: int)
    requires IsInt32(v)
    ensures ToInt32(ToUint32(v)) == v
  {
    if v < 0 {
      assert ToUint32(v) == v + 0x1_0000_0000;
    }
  }

  /** The readers only look at the bytes up to the end of the field: what follows
      leaves them alone. */
  lemma ReadsBeforeSuffix(x: seq<byte>, y: seq<byte>, o: nat)
    ensures o + 2 <= |x| ==> ReadUint16LE(x + y, o) == ReadUint16LE(x, o)
    ensures o + 4 <= |x| ==> ReadUint32LE(x + y, o) == ReadUint32LE(x, o)
  {
  }

  /** A field encoded at the end of a buffer reads back at its offset. */
  lemma Read32Last(a: seq<byte>, f: seq<byte>, v: int)
    requires IsInt32(v) && f == LE32Signed(v)
    ensures ReadUint32LE(a + f, |a|) == v
  {
    assert (a + f)[|a|..|a| + 4] == f;
    ReadUint32LEOfLE32Signed(a + f, |a|, v);
  }

  lemma Read16Last(a: seq<byte>, f: seq<byte>, v: int)
    requires 0 <= v < 0x1_0000 && f == LE16(v)
    ensures ReadUint16LE(a + f, |a|) == v
  {
    assert (a + f)[|a|..|a| + 2] == f;
    ReadUint16LEOfLE16(a + f, |a|, v);
  }

  /** The readers only look at the bytes from the offset on: a prefix shifts them. */
  lemma ReadsAfterPrefix(p: seq<byte>, s: seq<byte>, i: nat)
    ensures ReadUint16LE(p + s, |p| + i) == ReadUint16LE(s, i)
    ensures ReadUint32LE(p + s, |p| + i) == ReadUint32LE(s, i)
  {
    AtAfterPrefix(p, s, i);
    AtAfterPrefix(p, s, i + 1);
    AtAfterPrefix(p, s, i + 2);
    AtAfterPrefix(p, s, i + 3);
  }

  lemma AtAfterPrefix(p: seq<byte>, s: seq<byte>, j: nat)
    ensures At(p + s, |p| + j) == At(s, j)
  {
    if j < |s| {
      assert (p + s)[|p| + j] == s[j];
    }
  }

  // ----- Proof helpers -----

  lemma LE32Sum(v: nat)
    requires v < 0x1_0000_0000
    ensures var e := LE32(v); e[0] as int + 0x100 * (e[1] as int) + 0x1_0000 * (e[2] as int) + 0x100_0000 * (e[3] as int) == v
    ensures (LE32(v)[3] < 0x80) == (v < 0x8000_0000)
  {
    var e := LE32(v);
    var v1, v2, v3 := v / 0x100, v / 0x1_0000, v / 0x100_0000;
    assert v / 0x100 / 0x100 == v2 && v2 / 0x100 == v3 && v3 / 0x100 == 0;
    assert e == [v % 0x100] + LittleEndian(v1, 3);
    assert LittleEndian(v1, 3) == [v1 % 0x100] + LittleEndian(v2, 2);
    assert LittleEndian(v2, 2) == [v2 % 0x100] + LittleEndian(v3, 1);
    assert LittleEndian(v3, 1) == [v3 % 0x100] + LittleEndian(0, 0);
    assert v == v1 * 0x100 + e[0];
    assert v1 == v2 * 0x100 + e[1];
    assert v2 == v3 * 0x100 + e[2];
  }

  lemma Int32OfSum(b0: byte, b1: byte, b2: byte, b3: byte)
    ensures var sum := b0 + 0x100 * b1 + 0x1_0000 * b2 + 0x100_0000 * b3;
            ToInt32(sum) == sum - (if b3 < 0x80 then 0 else 0x1_0000_0000)
  {
  }

  lemma Uint32Id(x: int)
    requires 0 <= x < 0x1_0000_0000
    ensures ToUint32(x) == x
  {
  }

  lemma Uint32OfInt32(u: nat)
    requires u < 0x1_0000_0000
    ensures ToUint32(ToInt32(u)) == u
  {
  }

  lemma {:induction false} OrDisjoint(a: nat, b: nat, k: nat)
    requires a < Pow2(k)
    ensures OrBits(a, b * Pow2(k)) == a + b * Pow2(k)
  {
    if k == 0 || a == 0 || b == 0 {
    } else {
      var p := Pow2(k - 1);
      var c := b * p;
      assert Pow2(k) == 2 * p;
      assert b * Pow2(k) == 2 * c && c > 0 by { assert b * (2 * p) == 2 * (b * p); }
      assert a / 2 < p;
      OrDisjoint(a / 2, b, k - 1);
      assert OrBits(a, 2 * c) == 2 * OrBits(a / 2, c) + a % 2;
    }
  }

  lemma Pow2Shifts()
    ensures Pow2(8) == 0x100 && Pow2(16) == 0x1_0000 && Pow2(24) == 0x100_0000
  {
  }

  /** `x | (y << k)` when `x` as a 32-bit pattern is `a` and lies below bit `k`. The
      multiplier `m` is passed as a literal so that callers reason linearly. */
  lemma OrShiftedByte(x: int, a: nat, y: byte, k: nat, m: nat)
    requires (k == 8 || k == 16 || k == 24) && m == Pow2(k)
    requires a < m && ToUint32(x) == a
    ensures Or(x, Shl(y, k)) == ToInt32(a + y * m)
  {
    Pow2Shifts();
    Uint32Id(y);
    Uint32OfInt32(y * m);
    assert a + y * m < 0x1_0000_0000;
    OrDisjoint(a, y, k);
  }

  lemma Read32Sum(b0: byte, b1: byte, b2: byte, b3: byte)
    ensures Or(Or(Or(b0, Shl(b1, 8)), Shl(b2, 16)), Shl(b3, 24))
            == ToInt32(b0 + 0x100 * b1 + 0x1_0000 * b2 + 0x100_0000 * b3)
  {
    var s1 := b0 + 0x100 * b1;
    var s2 := s1 + 0x1_0000 * b2;
    Uint32Id(b0);
    OrShiftedByte(b0, b0, b1, 8, 0x100);
    Uint32OfInt32(s1);
    OrShiftedByte(Or(b0, Shl(b1, 8)), s1, b2, 16, 0x1_0000);
    Uint32OfInt32(s2);
    OrShiftedByte(Or(Or(b0, Shl(b1, 8)), Shl(b2, 16)), s2, b3, 24, 0x100_0000);
  }
}
