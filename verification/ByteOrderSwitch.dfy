/** Converting arrays of values between the two byte orders. */
module ByteOrderSwitch {
  import opened Bytes

  /** The bytes of one integer of a format; 0 for formats that are left alone. */
  function Unit(f: int): (u: nat)
    ensures u == 0 || u == 2 || u == 4
  {
    if f == FMT_SHORT || f == FMT_SSHORT then 2
    else if f == FMT_LONG || f == FMT_SLONG || f == FMT_RATIONAL || f == FMT_SRATIONAL then 4
    else 0
  }

  /** The integers in `n` components: a rational has two. */
  function Units(f: int, n: nat): nat
  {
    if f == FMT_RATIONAL || f == FMT_SRATIONAL then 2 * n else n
  }

  lemma {:induction false} UnitsFill(f: int, n: nat)
    requires Unit(f) > 0
    ensures Unit(f) * Units(f, n) == ValueBytes(f, n)
  {
  }

  /** The position that mirrors `i` within its integer. */
  function Mirror(i: nat, unit: nat): (j: nat)
    requires unit == 2 || unit == 4
    ensures i - i % unit <= j < i - i % unit + unit
  {
    i - i % unit + (unit - 1 - i % unit)
  }

  /** The bytes with each of the first `count` integers turned round. */
  function Reversed(s: bytes, unit: nat, count: nat): (t: bytes)
    requires (unit == 2 || unit == 4) && unit * count <= |s|
    ensures |t| == |s|
  {
    seq(|s|, i requires 0 <= i < |s| => if i < unit * count then MirrorInside(i, unit, count);
      s[Mirror(i, unit)] else s[i])
  }

  lemma {:induction false} MirrorInside(i: nat, unit: nat, count: nat)
    requires (unit == 2 || unit == 4) && i < unit * count
    ensures Mirror(i, unit) < unit * count
  {
  }

  /** What converting `n` components from order `a` to order `b` makes of the bytes. */
  function Switched(f: int, s: bytes, n: nat, a: ByteOrder, b: ByteOrder): (t: bytes)
    requires ValueBytes(f, n) <= |s|
    ensures |t| == |s|
  {
    if Unit(f) == 0 || a == b then s
    else
      UnitsFill(f, n);
      Reversed(s, Unit(f), Units(f, n))
  }

  // ---- What it means ----

  lemma {:induction false} ReversedShort(s: bytes, count: nat, k: nat)
    requires 2 * count <= |s| && k < count
    ensures Reversed(s, 2, count)[2 * k] == s[2 * k + 1] && Reversed(s, 2, count)[2 * k + 1] == s[2 * k]
  {
  }

  lemma {:induction false} MirrorOfLong(k: nat)
    ensures Mirror(4 * k, 4) == 4 * k + 3 && Mirror(4 * k + 1, 4) == 4 * k + 2
    ensures Mirror(4 * k + 2, 4) == 4 * k + 1 && Mirror(4 * k + 3, 4) == 4 * k
  {
    DivModUnique(4 * k, 4, k, 0);
    DivModUnique(4 * k + 1, 4, k, 1);
    DivModUnique(4 * k + 2, 4, k, 2);
    DivModUnique(4 * k + 3, 4, k, 3);
  }

  lemma {:induction false} ReversedLong(s: bytes, count: nat, k: nat)
    requires 4 * count <= |s| && k < count
    ensures Reversed(s, 4, count)[4 * k] == s[4 * k + 3] && Reversed(s, 4, count)[4 * k + 1] == s[4 * k + 2]
    ensures Reversed(s, 4, count)[4 * k + 2] == s[4 * k + 1] && Reversed(s, 4, count)[4 * k + 3] == s[4 * k]
  {
    hide Mirror;
    MirrorOfLong(k);
  }

  /** Every short reads the same under the new order as it did under the old one. */
  lemma {:induction false} ShortsKeep(f: int, s: bytes, n: nat, a: ByteOrder, b: ByteOrder, k: nat)
    requires (f == FMT_SHORT || f == FMT_SSHORT) && 2 * n <= |s| && k < n
    ensures GetShort(Switched(f, s, n, a, b), 2 * k, b) == GetShort(s, 2 * k, a)
  {
    hide Reversed;
    ReversedShort(s, n, k);
  }

  /** So does every long, and both halves of every rational. */
  lemma {:induction false} LongsKeep(f: int, s: bytes, n: nat, a: ByteOrder, b: ByteOrder, k: nat)
    requires Unit(f) == 4 && ValueBytes(f, n) <= |s| && k < Units(f, n)
    ensures 4 * k + 4 <= |s| && GetLong(Switched(f, s, n, a, b), 4 * k, b) == GetLong(s, 4 * k, a)
  {
    hide Reversed;
    UnitsFill(f, n);
    ReversedLong(s, Units(f, n), k);
  }

  /** Bytes behind the last component, and formats without byte order, are left alone. */
  lemma {:induction false} RestKeeps(f: int, s: bytes, n: nat, a: ByteOrder, b: ByteOrder, i: nat)
    requires ValueBytes(f, n) <= |s| && i < |s| && (Unit(f) == 0 || ValueBytes(f, n) <= i)
    ensures Switched(f, s, n, a, b)[i] == s[i]
  {
    if Unit(f) > 0 {
      UnitsFill(f, n);
    }
  }

  lemma {:induction false} MirrorTwice(i: nat, unit: nat)
    requires unit == 2 || unit == 4
    ensures Mirror(Mirror(i, unit), unit) == i
  {
    var q, r := i / unit, i % unit;
    if unit == 2 {
      assert Mirror(i, 2) == 2 * q + (1 - r);
      DivModUnique(2 * q + (1 - r), 2, q, 1 - r);
    } else {
      assert Mirror(i, 4) == 4 * q + (3 - r);
      DivModUnique(4 * q + (3 - r), 4, q, 3 - r);
    }
  }

  lemma {:induction false} ReversedTwice(s: bytes, unit: nat, count: nat)
    requires (unit == 2 || unit == 4) && unit * count <= |s|
    ensures Reversed(Reversed(s, unit, count), unit, count) == s
  {
    var t := Reversed(s, unit, count);
    forall i | 0 <= i < |s| ensures Reversed(t, unit, count)[i] == s[i] {
      if i < unit * count {
        MirrorInside(i, unit, count);
        MirrorTwice(i, unit);
        ReversedAt(s, unit, count, Mirror(i, unit));
        ReversedAt(t, unit, count, i);
      }
    }
  }

  lemma {:induction false} ReversedAt(s: bytes, unit: nat, count: nat, i: nat)
    requires (unit == 2 || unit == 4) && unit * count <= |s| && i < unit * count
    ensures Mirror(i, unit) < |s| && Reversed(s, unit, count)[i] == s[Mirror(i, unit)]
  {
    MirrorInside(i, unit, count);
  }

  /** Switching back restores the bytes. */
  lemma {:induction false} SwitchedBack(f: int, s: bytes, n: nat, a: ByteOrder, b: ByteOrder)
    requires ValueBytes(f, n) <= |s|
    ensures Switched(f, Switched(f, s, n, a, b), n, b, a) == s
  {
    hide Reversed;
    if Unit(f) > 0 {
      UnitsFill(f, n);
      ReversedTwice(s, Unit(f), Units(f, n));
    }
  }

  // ---- The conversion in place ----

  /** Writing back what was read turns the bytes round exactly when the orders differ. */
  lemma {:induction false} ShortTurned(x: byte, y: byte, a: ByteOrder, b: ByteOrder)
    ensures ShortDigits(GetShort([x, y], 0, a), b) == if a == b then [x, y] else [y, x]
  {
    hide Digit;
    var v := GetShort([x, y], 0, a);
    var z: bytes := if a == b then [x, y] else [y, x];
    ShortRoundTrip(v, b);
    assert GetShort(z, 0, b) == v;
    ShortInjective(ShortDigits(v, b), z, b);
  }

  /** Four bytes read from behind in the other order. */
  lemma {:induction false} TurnedReads(x: bytes, a: ByteOrder, b: ByteOrder)
    requires |x| == 4 && a != b
    ensures GetLong([x[3], x[2], x[1], x[0]], 0, b) == GetLong(x, 0, a)
  {
  }

  lemma {:induction false} LongTurned(x: bytes, a: ByteOrder, b: ByteOrder)
    requires |x| == 4
    ensures LongDigits(GetLong(x, 0, a), b) == if a == b then x else [x[3], x[2], x[1], x[0]]
  {
    hide Digit, LongDigits, GetLong;
    var v := GetLong(x, 0, a);
    var z: bytes := if a == b then x else [x[3], x[2], x[1], x[0]];
    LongRoundTrip(v, b);
    if a != b {
      TurnedReads(x, a, b);
    }
    assert GetLong(z, 0, b) == v;
    LongInjective(LongDigits(v, b), z, b);
  }

  /** exif_set_short of exif_get_short, at one place of an array. */
  method TurnShort(b: array<byte>, at: nat, a: ByteOrder, o: ByteOrder)
    requires at + 2 <= b.Length
    modifies b
    ensures b[at] == (if a == o then old(b[at]) else old(b[at + 1]))
    ensures b[at + 1] == (if a == o then old(b[at + 1]) else old(b[at]))
    ensures forall i :: 0 <= i < b.Length && i != at && i != at + 1 ==> b[i] == old(b[i])
  {
    hide Digit;
    var s := GetShort(b[..], at, a);
    ShortTurned(b[at], b[at + 1], a, o);
    assert s == GetShort([b[at], b[at + 1]], 0, a);
    var x := ShortDigits(s, o);
    b[at], b[at + 1] := x[0], x[1];
  }

  /** exif_set_long of exif_get_long, at one place of an array. */
  method TurnLong(b: array<byte>, at: nat, a: ByteOrder, o: ByteOrder)
    requires at + 4 <= b.Length
    modifies b
    ensures b[at..at + 4] == old(if a == o then b[at..at + 4] else [b[at + 3], b[at + 2], b[at + 1], b[at]])
    ensures forall i :: 0 <= i < b.Length && !(at <= i < at + 4) ==> b[i] == old(b[i])
  {
    hide Digit;
    ghost var was := b[at..at + 4];
    var l := GetLong(b[..], at, a);
    LongTurned(was, a, o);
    assert l == GetLong(was, 0, a);
    var x := LongDigits(l, o);
    b[at], b[at + 1], b[at + 2], b[at + 3] := x[0], x[1], x[2], x[3];
    assert b[at..at + 4] == x;
  }

  /** Turns the first `n` shorts of an array. */
  method TurnShorts(b: array<byte>, n: nat, a: ByteOrder, o: ByteOrder)
    requires 2 * n <= b.Length
    modifies b
    ensures b[..] == if a == o then old(b[..]) else Reversed(old(b[..]), 2, n)
  {
    ghost var was := b[..];
    ghost var goal := if a == o then was else Reversed(was, 2, n);
    hide Reversed;
    for j := 0 to n
      invariant forall i :: 0 <= i < 2 * j ==> b[i] == goal[i]
      invariant forall i :: 2 * j <= i < b.Length ==> b[i] == was[i]
    {
      TurnShort(b, 2 * j, a, o);
      ReversedShort(was, n, j);
    }
    assert forall i :: 2 * n <= i < b.Length ==> goal[i] == was[i] by { ReversedRest(was, 2, n); }
    assert b[..] == goal;
  }

  lemma {:induction false} ReversedRest(s: bytes, unit: nat, count: nat)
    requires (unit == 2 || unit == 4) && unit * count <= |s|
    ensures forall i :: unit * count <= i < |s| ==> Reversed(s, unit, count)[i] == s[i]
  {
  }

  /** One more long turned. */
  method TurnNextLong(b: array<byte>, j: nat, n: nat, a: ByteOrder, o: ByteOrder, ghost was: bytes, ghost goal: bytes)
    requires 4 * n <= b.Length == |was| == |goal| && j < n && goal == if a == o then was else Reversed(was, 4, n)
    requires forall i :: 0 <= i < 4 * j ==> b[i] == goal[i]
    requires forall i :: 4 * j <= i < b.Length ==> b[i] == was[i]
    modifies b
    ensures forall i :: 0 <= i < 4 * (j + 1) ==> b[i] == goal[i]
    ensures forall i :: 4 * (j + 1) <= i < b.Length ==> b[i] == was[i]
  {
    hide Reversed;
    ReversedLong(was, n, j);
    TurnLong(b, 4 * j, a, o);
    assert b[4 * j] == b[4 * j..4 * j + 4][0] && b[4 * j + 1] == b[4 * j..4 * j + 4][1];
    assert b[4 * j + 2] == b[4 * j..4 * j + 4][2] && b[4 * j + 3] == b[4 * j..4 * j + 4][3];
  }

  /** Turns the first `n` longs of an array. */
  method TurnLongs(b: array<byte>, n: nat, a: ByteOrder, o: ByteOrder)
    requires 4 * n <= b.Length
    modifies b
    ensures b[..] == if a == o then old(b[..]) else Reversed(old(b[..]), 4, n)
  {
    ghost var was := b[..];
    ghost var goal := if a == o then was else Reversed(was, 4, n);
    hide Reversed;
    for j := 0 to n
      invariant forall i :: 0 <= i < 4 * j ==> b[i] == goal[i]
      invariant forall i :: 4 * j <= i < b.Length ==> b[i] == was[i]
    {
      TurnNextLong(b, j, n, a, o, was, goal);
    }
    assert forall i :: 4 * n <= i < b.Length ==> goal[i] == was[i] by { ReversedRest(was, 4, n); }
    assert b[..] == goal;
  }

  /** Turns numerator and denominator of the first `n` rationals of an array. */
  method TurnRationals(b: array<byte>, n: nat, a: ByteOrder, o: ByteOrder)
    requires 8 * n <= b.Length
    modifies b
    ensures b[..] == if a == o then old(b[..]) else Reversed(old(b[..]), 4, 2 * n)
  {
    ghost var was := b[..];
    ghost var goal := if a == o then was else Reversed(was, 4, 2 * n);
    hide Reversed;
    for j := 0 to n
      invariant forall i :: 0 <= i < 8 * j ==> b[i] == goal[i]
      invariant forall i :: 8 * j <= i < b.Length ==> b[i] == was[i]
    {
      TurnNextLong(b, 2 * j, 2 * n, a, o, was, goal);
      TurnNextLong(b, 2 * j + 1, 2 * n, a, o, was, goal);
    }
    assert forall i :: 8 * n <= i < b.Length ==> goal[i] == was[i] by { ReversedRest(was, 4, 2 * n); }
    assert b[..] == goal;
  }

  /** exif_array_set_byte_order. */
  method ArraySetByteOrder(f: int, b: array<byte>, n: nat, a: ByteOrder, o: ByteOrder)
    requires ValueBytes(f, n) <= b.Length
    modifies b
    ensures b[..] == Switched(f, old(b[..]), n, a, o)
  {
    hide Reversed;
    if f == FMT_SHORT || f == FMT_SSHORT {
      TurnShorts(b, n, a, o);
    } else if f == FMT_LONG || f == FMT_SLONG {
      TurnLongs(b, n, a, o);
    } else if f == FMT_RATIONAL || f == FMT_SRATIONAL {
      TurnRationals(b, n, a, o);
    }
  }

  /** The same for a value kept as a sequence. */
  method SwitchValue(f: int, s: bytes, n: nat, a: ByteOrder, o: ByteOrder) returns (t: bytes)
    requires ValueBytes(f, n) <= |s|
    ensures t == Switched(f, s, n, a, o)
  {
    hide Reversed, Switched;
    var b := new byte[|s|](i requires 0 <= i < |s| => s[i]);
    assert b[..] == s;
    ArraySetByteOrder(f, b, n, a, o);
    t := b[..];
  }
}
