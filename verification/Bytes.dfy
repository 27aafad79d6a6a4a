/** Byte strings, the two byte orders, and the range checks every loader rests on. */
module Bytes {

  type byte = x: int | 0 <= x < 0x100
  type bytes = seq<byte>

  datatype Option<+T> = None | Some(value: T)

  datatype ByteOrder = Motorola | Intel

  const U16 := 0x1_0000
  const U32 := 0x1_0000_0000

  // ---- Integers in a buffer ----

  function GetShort(b: bytes, at: nat, order: ByteOrder): (v: int)
    requires at + 2 <= |b|
    ensures 0 <= v < U16
  {
    if order.Motorola? then 0x100 * (b[at] as int) + b[at + 1] else 0x100 * (b[at + 1] as int) + b[at]
  }

  function GetLong(b: bytes, at: nat, order: ByteOrder): (v: int)
    requires at + 4 <= |b|
    ensures 0 <= v < U32
  {
    if order.Motorola? then
      0x100_0000 * (b[at] as int) + 0x1_0000 * (b[at + 1] as int) + 0x100 * (b[at + 2] as int) + b[at + 3]
    else
      0x100_0000 * (b[at + 3] as int) + 0x1_0000 * (b[at + 2] as int) + 0x100 * (b[at + 1] as int) + b[at]
  }

  /** Motorola order has the high byte first, Intel order the low one. */
  lemma {:induction false} ShortOrder(x: byte, y: byte)
    ensures GetShort([x, y], 0, Motorola) == 0x100 * (x as int) + y
    ensures GetShort([x, y], 0, Intel) == 0x100 * (y as int) + x
  {
  }

  /** A long is two shorts, the high one first in Motorola order and the low one first in Intel order. */
  lemma {:induction false} LongIsShorts(b: bytes, at: nat)
    requires at + 4 <= |b|
    ensures GetLong(b, at, Motorola) == U16 * GetShort(b, at, Motorola) + GetShort(b, at + 2, Motorola)
    ensures GetLong(b, at, Intel) == GetShort(b, at, Intel) + U16 * GetShort(b, at + 2, Intel)
  {
  }

  /** The low byte of `v` shifted right by `k` bytes, as `(unsigned char) (v >> 8 * k)`. */
  function Digit(v: int, k: nat): (d: byte)
    requires k < 4
  {
    match k
    case 0 => v % 0x100
    case 1 => v / 0x100 % 0x100
    case 2 => v / 0x1_0000 % 0x100
    case 3 => v / 0x100_0000 % 0x100
  }

  lemma {:induction false} DivModUnique(v: int, m: int, q: int, r: int)
    requires 0 <= r < m && v == m * q + r
    ensures v / m == q && v % m == r
  {
    var d := v / m - q;
    assert m * d == r - v % m;
    MulMonotone(m, 1, if d > 0 then d else 1);
    MulMonotone(m, 1, if d < 0 then -d else 1);
  }

  lemma {:induction false} MulMonotone(a: nat, x: nat, y: nat)
    requires x <= y
    ensures a * x <= a * y
  {
    assert a * y - a * x == a * (y - x);
  }

  /** `v` taken apart into bytes and a quotient. */
  lemma {:induction false} DigitsOf(v: int)
    ensures v == U16 * (v / U16) + 0x100 * (Digit(v, 1) as int) + Digit(v, 0)
    ensures v == U32 * (v / U32) + 0x100_0000 * (Digit(v, 3) as int) + 0x1_0000 * (Digit(v, 2) as int)
      + 0x100 * (Digit(v, 1) as int) + Digit(v, 0)
  {
    var q1 := v / 0x100;
    var q2 := q1 / 0x100;
    var q3 := q2 / 0x100;
    var q4 := q3 / 0x100;
    DivModUnique(v, 0x1_0000, q2, 0x100 * (q1 % 0x100) + v % 0x100);
    DivModUnique(v, 0x100_0000, q3, 0x1_0000 * (q2 % 0x100) + 0x100 * (q1 % 0x100) + v % 0x100);
    DivModUnique(v, U32, q4, 0x100_0000 * (q3 % 0x100) + 0x1_0000 * (q2 % 0x100) + 0x100 * (q1 % 0x100) + v % 0x100);
  }

  /** The two bytes exif_set_short stores for `v`; a wider value is truncated. */
  function ShortDigits(v: int, order: ByteOrder): (x: bytes)
    ensures |x| == 2
  {
    if order.Motorola? then [Digit(v, 1), Digit(v, 0)] else [Digit(v, 0), Digit(v, 1)]
  }

  /** The four bytes exif_set_long stores for `v`; a wider value is truncated. */
  function LongDigits(v: int, order: ByteOrder): (x: bytes)
    ensures |x| == 4
  {
    if order.Motorola? then
      [Digit(v, 3), Digit(v, 2), Digit(v, 1), Digit(v, 0)]
    else
      [Digit(v, 0), Digit(v, 1), Digit(v, 2), Digit(v, 3)]
  }

  /** Reading back a stored integer gives it modulo its width. */
  lemma {:induction false} ShortRoundTrip(v: int, order: ByteOrder)
    ensures GetShort(ShortDigits(v, order), 0, order) == v % U16
  {
    DigitsOf(v);
    DivModUnique(v, U16, v / U16, 0x100 * (Digit(v, 1) as int) + Digit(v, 0));
  }

  lemma {:induction false} LongRoundTrip(v: int, order: ByteOrder)
    ensures GetLong(LongDigits(v, order), 0, order) == v % U32
  {
    DigitsOf(v);
    DivModUnique(v, U32, v / U32,
      0x100_0000 * (Digit(v, 3) as int) + 0x1_0000 * (Digit(v, 2) as int) + 0x100 * (Digit(v, 1) as int) + Digit(v, 0));
  }

  /** The specification of a stored short: the two bytes that read back as `v` modulo 2^16. */
  ghost function EncShort(v: int, order: ByteOrder): (x: bytes)
    ensures |x| == 2
  {
    ShortRoundTrip(v, order);
    var x: bytes :| |x| == 2 && GetShort(x, 0, order) == v % U16;
    x
  }

  /** The specification of a stored long: the four bytes that read back as `v` modulo 2^32. */
  ghost function EncLong(v: int, order: ByteOrder): (x: bytes)
    ensures |x| == 4
  {
    LongRoundTrip(v, order);
    var x: bytes :| |x| == 4 && GetLong(x, 0, order) == v % U32;
    x
  }

  lemma {:induction false} DigitsInjective(a: int, b: byte, c: int, d: byte)
    requires 0x100 * a + b == 0x100 * c + d
    ensures a == c && b == d
  {
  }

  lemma {:induction false} FourDigitsInjective(a: byte, b: byte, c: byte, d: byte, a': byte, b': byte, c': byte,
                                               d': byte)
    requires 0x100_0000 * (a as int) + 0x1_0000 * (b as int) + 0x100 * (c as int) + d
          == 0x100_0000 * (a' as int) + 0x1_0000 * (b' as int) + 0x100 * (c' as int) + d'
    ensures a == a' && b == b' && c == c' && d == d'
  {
    DigitsInjective(0x1_0000 * (a as int) + 0x100 * (b as int) + c, d,
      0x1_0000 * (a' as int) + 0x100 * (b' as int) + c', d');
    DigitsInjective(0x100 * (a as int) + b, c, 0x100 * (a' as int) + b', c');
    DigitsInjective(a, b, a', b');
  }

  /** Two bytes are determined by the short they hold. */
  lemma {:induction false} ShortInjective(x: bytes, y: bytes, order: ByteOrder)
    requires |x| == |y| == 2 && GetShort(x, 0, order) == GetShort(y, 0, order)
    ensures x == y
  {
  }

  /** Four bytes are determined by the long they hold. */
  lemma {:induction false} LongInjective(x: bytes, y: bytes, order: ByteOrder)
    requires |x| == |y| == 4 && GetLong(x, 0, order) == GetLong(y, 0, order)
    ensures x == y
  {
    if order.Motorola? {
      FourDigitsInjective(x[0], x[1], x[2], x[3], y[0], y[1], y[2], y[3]);
    } else {
      FourDigitsInjective(x[3], x[2], x[1], x[0], y[3], y[2], y[1], y[0]);
    }
  }

  /** What the setters store meets its specification. */
  lemma {:induction false} ShortDigitsMeetSpec(v: int, order: ByteOrder)
    ensures ShortDigits(v, order) == EncShort(v, order)
  {
    ShortRoundTrip(v, order);
    ShortInjective(ShortDigits(v, order), EncShort(v, order), order);
  }

  lemma {:induction false} LongDigitsMeetSpec(v: int, order: ByteOrder)
    ensures LongDigits(v, order) == EncLong(v, order)
  {
    LongRoundTrip(v, order);
    LongInjective(LongDigits(v, order), EncLong(v, order), order);
  }

  // ---- Blocks inside a buffer ----

  /** The block `x` lies in `b` from position `at` on. */
  predicate LiesAt(b: bytes, at: nat, x: bytes)
  {
    at + |x| <= |b| && forall i :: 0 <= i < |x| ==> b[at + i] == x[i]
  }

  lemma {:induction false} LiesAtSlice(b: bytes, at: nat, x: bytes)
    ensures LiesAt(b, at, x) <==> at + |x| <= |b| && b[at..at + |x|] == x
  {
    if at + |x| <= |b| {
      var y := b[at..at + |x|];
      assert forall i :: 0 <= i < |x| ==> y[i] == b[at + i];
    }
  }

  lemma {:induction false} LiesWithin(b: bytes, at: nat, x: bytes, k: nat, y: bytes)
    requires LiesAt(b, at, x) && LiesAt(x, k, y)
    ensures LiesAt(b, at + k, y)
  {
    forall i | 0 <= i < |y| ensures b[at + k + i] == y[i] {
      assert x[k + i] == y[i];
    }
  }

  lemma {:induction false} LiesConcat(b: bytes, at: nat, x: bytes, y: bytes)
    ensures LiesAt(b, at, x + y) <==> LiesAt(b, at, x) && LiesAt(b, at + |x|, y)
  {
    var z := x + y;
    if LiesAt(b, at, z) {
      forall i | 0 <= i < |x| ensures b[at + i] == x[i] { assert z[i] == x[i]; }
      forall i | 0 <= i < |y| ensures b[at + |x| + i] == y[i] { assert z[|x| + i] == y[i]; }
    }
  }

  lemma {:induction false} LiesInItself(b: bytes)
    ensures LiesAt(b, 0, b)
  {
  }

  /** A reader only looks at its own bytes. */
  lemma {:induction false} GetShortAt(b: bytes, at: nat, x: bytes, order: ByteOrder)
    requires |x| == 2 && LiesAt(b, at, x)
    ensures GetShort(b, at, order) == GetShort(x, 0, order)
  {
    assert b[at + 0] == x[0] && b[at + 1] == x[1];
  }

  lemma {:induction false} GetLongAt(b: bytes, at: nat, x: bytes, order: ByteOrder)
    requires |x| == 4 && LiesAt(b, at, x)
    ensures GetLong(b, at, order) == GetLong(x, 0, order)
  {
    assert b[at + 0] == x[0] && b[at + 1] == x[1] && b[at + 2] == x[2] && b[at + 3] == x[3];
  }

  /** What EXIF data start with. */
  const EXIF_HEADER: bytes := [0x45, 0x78, 0x69, 0x66, 0, 0]

  /** What Fuji's raw files start with, and its maker notes. */
  const FUJIFILM: bytes := [0x46, 0x55, 0x4a, 0x49, 0x46, 0x49, 0x4c, 0x4d]

  // ---- Buffers ----

  function Zeros(n: nat): (z: bytes)
    ensures |z| == n
    ensures forall i :: 0 <= i < n ==> z[i] == 0
  {
    seq(n, _ => 0)
  }

  /** `b` with the bytes from `at` on overwritten by `x`. */
  function Put(b: bytes, at: nat, x: bytes): (r: bytes)
    requires at + |x| <= |b|
    ensures |r| == |b|
  {
    b[..at] + x + b[at + |x|..]
  }

  /** Overwriting one block of a concatenation leaves its neighbours alone. */
  lemma {:induction false} PutMiddle(a: bytes, b: bytes, c: bytes, x: bytes)
    requires |x| == |b|
    ensures Put(a + b + c, |a|, x) == a + x + c
  {
    assert (a + b + c)[..|a|] == a;
    assert (a + b + c)[|a| + |x|..] == c;
  }

  /** Growing a block keeps its bytes; what the new ones hold is not promised. */
  method Realloc(d: bytes, n: nat) returns (t: bytes)
    requires |d| <= n
    ensures |t| == n && t[..|d|] == d
  {
    t := d + Zeros(n - |d|);
  }

  /** A value padded with a zero byte to an even length. */
  function Pad(x: bytes): (p: bytes)
    ensures |p| % 2 == 0 && |x| <= |p| <= |x| + 1
    ensures p[..|x|] == x
  {
    if |x| % 2 == 1 then x + [0] else x
  }

  /** exif_check_overflow: the structure does not lie inside the buffer. */
  predicate CheckOverflow(offset: nat, datasize: nat, structsize: nat)
  {
    offset >= datasize || structsize > datasize || offset > datasize - structsize
  }

  /** A structure that is not empty is refused exactly when it does not fit; an empty one when it starts at the end. */
  lemma {:induction false} CheckOverflowIsExact(offset: nat, datasize: nat, structsize: nat)
    ensures structsize > 0 ==> (CheckOverflow(offset, datasize, structsize) <==> offset + structsize > datasize)
    ensures CheckOverflow(offset, datasize, 0) <==> offset >= datasize
  {
  }

  /** exif_check_mul_overflow: `a * b` would exceed `max`, decided without multiplying. */
  predicate CheckMulOverflow(a: nat, b: nat, max: nat)
  {
    a != 0 && b > max / a
  }

  lemma {:induction false} CheckMulOverflowIsExact(a: nat, b: nat, max: nat)
    ensures CheckMulOverflow(a, b, max) <==> a * b > max
  {
    if a != 0 {
      var q := max / a;
      assert max == a * q + max % a;
      if b > q {
        assert a * b >= a * (q + 1) by { assert b >= q + 1; MulMonotone(a, q + 1, b); }
        assert a * (q + 1) == a * q + a;
      } else {
        MulMonotone(a, b, q);
      }
    }
  }

  // ---- Formats ----

  const FMT_BYTE := 1
  const FMT_ASCII := 2
  const FMT_SHORT := 3
  const FMT_LONG := 4
  const FMT_RATIONAL := 5
  const FMT_SBYTE := 6
  const FMT_UNDEFINED := 7
  const FMT_SSHORT := 8
  const FMT_SLONG := 9
  const FMT_SRATIONAL := 10
  const FMT_FLOAT := 11
  const FMT_DOUBLE := 12

  /** exif_format_get_size; 0 for an unknown format. */
  function FormatSize(f: int): (s: nat)
    ensures s == 0 || s == 1 || s == 2 || s == 4 || s == 8
    ensures s == 0 <==> !(1 <= f <= 12)
  {
    if f == FMT_BYTE || f == FMT_ASCII || f == FMT_SBYTE || f == FMT_UNDEFINED then 1
    else if f == FMT_SHORT || f == FMT_SSHORT then 2
    else if f == FMT_LONG || f == FMT_SLONG || f == FMT_FLOAT then 4
    else if f == FMT_RATIONAL || f == FMT_SRATIONAL || f == FMT_DOUBLE then 8
    else 0
  }

  /** The formats of the Exif standard by the bytes of one component. */
  lemma {:induction false} FormatSizes(f: int)
    ensures FormatSize(f) == 1 <==> f in {1, 2, 6, 7}
    ensures FormatSize(f) == 2 <==> f in {3, 8}
    ensures FormatSize(f) == 4 <==> f in {4, 9, 11}
    ensures FormatSize(f) == 8 <==> f in {5, 10, 12}
  {
  }

  /** `exif_format_get_size (f) * n`, spelt out so that it stays linear. */
  function ValueBytes(f: int, n: nat): (s: nat)
  {
    var fs := FormatSize(f);
    if fs == 0 then 0 else if fs == 1 then n else if fs == 2 then 2 * n else if fs == 4 then 4 * n else 8 * n
  }

  lemma {:induction false} ValueBytesIsProduct(f: int, n: nat)
    ensures ValueBytes(f, n) == FormatSize(f) * n
  {
  }
}
