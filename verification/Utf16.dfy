/** exif_convert_utf16_to_utf8: text in sixteen-bit units to UTF-8, as much of it as fits. */
module Utf16 {
  import opened Bytes

  /** The units of a text: up to a zero unit, or as long as there are two bytes. */
  function Units(b: bytes): (us: seq<int>)
    ensures forall k :: 0 <= k < |us| ==> 0 < us[k] < U16
    ensures 2 * |us| <= |b|
    decreases |b|
  {
    if |b| < 2 || GetShort(b, 0, Intel) == 0 then [] else [GetShort(b, 0, Intel)] + Units(b[2..])
  }

  /** One unit in one to three bytes. */
  function Encode(v: int): (x: bytes)
    requires 0 < v < U16
    ensures 1 <= |x| <= 3 && 0 !in x
  {
    if v < 0x80 then [v]
    else if v < 0x800 then [v / 0x40 % 0x20 + 0xc0, v % 0x40 + 0x80]
    else [v / 0x1000 % 0x10 + 0xe0, v / 0x40 % 0x40 + 0x80, v % 0x40 + 0x80]
  }

  /** Units have their low byte first, and end at one that is zero or only half there. */
  lemma {:induction false} UnitsExactly(b: bytes, k: nat)
    ensures var us := Units(b);
      && (k < |us| ==> us[k] == (b[2 * k] as int) + 0x100 * (b[2 * k + 1] as int))
      && (2 * |us| + 2 > |b| || (b[2 * |us|] == 0 && b[2 * |us| + 1] == 0))
    decreases |b|
  {
    if Units(b) != [] {
      UnitsExactly(b[2..], if k > 0 then k - 1 else 0);
      assert Units(b)[1..] == Units(b[2..]);
      assert k > 0 && k < |Units(b)| ==> Units(b)[k] == Units(b)[1..][k - 1];
    }
  }

  predicate Text(us: seq<int>)
  {
    forall k :: 0 <= k < |us| ==> 0 < us[k] < U16
  }

  function EncodeAll(us: seq<int>): (x: bytes)
    requires Text(us)
  {
    if us == [] then [] else EncodeAll(us[..|us| - 1]) + Encode(us[|us| - 1])
  }

  // ---- The standard ----

  /** `x` is the encoding of character number `c` in section 3 of RFC 3629, as far as three bytes go. */
  predicate IsUtf8(x: bytes, c: int)
  {
    || (|x| == 1 && x[0] < 0x80 && c == x[0])
    || (|x| == 2 && 0xc0 <= x[0] < 0xe0 && 0x80 <= x[1] < 0xc0
      && c == 0x40 * (x[0] as int - 0xc0) + (x[1] as int - 0x80) && c >= 0x80)
    || (|x| == 3 && 0xe0 <= x[0] < 0xf0 && 0x80 <= x[1] < 0xc0 && 0x80 <= x[2] < 0xc0
        && c == 0x1000 * (x[0] as int - 0xe0) + 0x40 * (x[1] as int - 0x80) + (x[2] as int - 0x80)
        && c >= 0x800 && !(0xd800 <= c <= 0xdfff))
  }

  lemma {:induction false} SplitUnit(v: int)
    requires 0 < v < U16
    ensures v == 0x1000 * (v / 0x1000) + 0x40 * (v / 0x40 % 0x40) + v % 0x40 && 0 <= v / 0x1000 < 0x10
    ensures v / 0x1000 % 0x10 == v / 0x1000
    ensures v < 0x800 ==> v == 0x40 * (v / 0x40) + v % 0x40 && 0 <= v / 0x40 < 0x20 && v / 0x40 % 0x20 == v / 0x40
  {
    var q := v / 0x40;
    DivModUnique(v, 0x1000, q / 0x40, 0x40 * (q % 0x40) + v % 0x40);
  }

  /** The encoding of a unit is UTF-8 exactly when the unit is not half of a surrogate pair. */
  lemma {:induction false} EncodeIsUtf8(v: int)
    requires 0 < v < U16
    ensures IsUtf8(Encode(v), v) <==> !(0xd800 <= v <= 0xdfff)
  {
    SplitUnit(v);
  }

  /** The first half of a surrogate pair: its three bytes decode to it, but are not UTF-8. */
  lemma {:induction false} SurrogateExample()
    ensures Encode(0xd800) == [0xed, 0xa0, 0x80] && !IsUtf8(Encode(0xd800), 0xd800)
  {
    EncodeIsUtf8(0xd800);
  }

  // ---- Decoding ----

  /** The unit at the start of `x` and its length; no unit if the bytes do not form one. */
  function DecodeOne(x: bytes): (r: (int, nat))
    ensures r.1 <= |x|
  {
    if |x| >= 1 && 0 < x[0] < 0x80 then (x[0] as int, 1)
    else if |x| >= 2 && 0xc0 <= x[0] < 0xe0 then (0x40 * (x[0] as int - 0xc0) + (x[1] as int - 0x80), 2)
    else if |x| >= 3 && 0xe0 <= x[0]
      then (0x1000 * (x[0] as int - 0xe0) + 0x40 * (x[1] as int - 0x80) + (x[2] as int - 0x80), 3)
    else (0, 0)
  }

  function Decode(x: bytes): seq<int>
    decreases |x|
  {
    var (v, n) := DecodeOne(x);
    if n == 0 then [] else [v] + Decode(x[n..])
  }

  lemma {:induction false} DecodeOneEncoded(v: int, rest: bytes)
    requires 0 < v < U16
    ensures DecodeOne(Encode(v) + rest) == (v, |Encode(v)|)
  {
    SplitUnit(v);
  }

  lemma {:induction false} EncodeCons(v: int, us: seq<int>)
    requires 0 < v < U16 && Text(us)
    ensures Text([v] + us) && EncodeAll([v] + us) == Encode(v) + EncodeAll(us)
    decreases |us|
  {
    hide Encode;
    var vs := [v] + us;
    if us == [] {
      assert vs[..0] == [];
    } else {
      var init, last := us[..|us| - 1], us[|us| - 1];
      assert vs[..|us|] == [v] + init && vs[|us|] == last;
      EncodeCons(v, init);
      assert EncodeAll(vs) == (Encode(v) + EncodeAll(init)) + Encode(last);
    }
  }

  /** Decoding gives back exactly the units: none is ever split. */
  lemma {:induction false} DecodeEncoded(us: seq<int>)
    requires Text(us)
    ensures Decode(EncodeAll(us)) == us
    decreases |us|
  {
    hide Encode, DecodeOne;
    if us == [] {
      assert DecodeOne([]) == (0, 0) by { NothingToDecode(); }
    } else {
      var v, rest := us[0], us[1..];
      assert us == [v] + rest;
      EncodeCons(v, rest);
      DecodeOneEncoded(v, EncodeAll(rest));
      DecodeEncoded(rest);
      assert (Encode(v) + EncodeAll(rest))[|Encode(v)|..] == EncodeAll(rest);
    }
  }

  lemma {:induction false} NothingToDecode()
    ensures DecodeOne([]) == (0, 0)
  {
  }

  // ---- How much fits ----

  /** The number of leading units whose encoding fits, with its NUL, into `room` bytes; `n` are known to fit. */
  function Fitting(us: seq<int>, room: nat, n: nat): (k: nat)
    requires Text(us) && n <= |us|
    ensures n <= k <= |us|
    decreases |us| - n
  {
    if n < |us| && |EncodeAll(us[..n + 1])| + 1 <= room then Fitting(us, room, n + 1) else n
  }

  lemma {:induction false} EncodeGrows(us: seq<int>, j: nat, k: nat)
    requires Text(us) && j <= k <= |us|
    ensures |EncodeAll(us[..j])| <= |EncodeAll(us[..k])|
    decreases k
  {
    hide Encode;
    if j < k {
      EncodeGrows(us, j, k - 1);
      assert us[..k][..k - 1] == us[..k - 1];
    }
  }

  /** It is the longest leading run that fits. */
  lemma {:induction false} FittingIsLongest(us: seq<int>, room: nat, n: nat, j: nat)
    requires Text(us) && n <= |us| && j <= |us| && |EncodeAll(us[..n])| + 1 <= room
    ensures |EncodeAll(us[..Fitting(us, room, n)])| + 1 <= room
    ensures |EncodeAll(us[..j])| + 1 <= room ==> j <= Fitting(us, room, n)
    decreases |us| - n
  {
    hide EncodeAll;
    if n < |us| && |EncodeAll(us[..n + 1])| + 1 <= room {
      FittingIsLongest(us, room, n + 1, j);
    } else if n < j {
      EncodeGrows(us, n + 1, j);
    }
  }

  /** What is written: the encoding of the longest run that fits, and a NUL. */
  function Converted(b: bytes, room: nat): (x: bytes)
    requires room > 0
  {
    EncodeAll(Units(b)[..Fitting(Units(b), room, 0)]) + [0]
  }

  /** The result fits, holds no other NUL, and decodes to the units that were taken. */
  lemma {:induction false} ConvertedMeaning(b: bytes, room: nat)
    requires room > 0
    ensures var x, k := Converted(b, room), Fitting(Units(b), room, 0);
      && |x| <= room && x[|x| - 1] == 0
      && Decode(x[..|x| - 1]) == Units(b)[..k]
      && (k < |Units(b)| ==> |EncodeAll(Units(b)[..k + 1])| + 1 > room)
  {
    hide Units, EncodeAll, Decode;
    var us := Units(b);
    var k := Fitting(us, room, 0);
    assert us[..0] == [] && EncodeAll([]) == [] by { EncodeNone(); }
    FittingIsLongest(us, room, 0, if k < |us| then k + 1 else k);
    DecodeEncoded(us[..k]);
    assert Converted(b, room)[..|Converted(b, room)| - 1] == EncodeAll(us[..k]);
  }

  lemma {:induction false} EncodeNone()
    ensures EncodeAll([]) == []
  {
  }

  // ---- The conversion in place ----

  /** Writes one unit at `at`, if it and the final NUL still fit. */
  method PutUnit(out: array<byte>, at: nat, room: nat, v: int) returns (ok: bool, next: nat)
    requires 0 < v < U16 && at < room <= out.Length
    modifies out
    ensures ok <==> at + |Encode(v)| + 1 <= room
    ensures ok ==> next == at + |Encode(v)| && out[at..next] == Encode(v)
    ensures !ok ==> next == at
    ensures forall i :: 0 <= i < out.Length && !(at <= i < next) ==> out[i] == old(out[i])
  {
    var outlen := room - at;
    ok, next := false, at;
    if v < 0x80 {
      if outlen > 1 {
        out[at] := v;
        ok, next := true, at + 1;
      }
    } else if v < 0x800 {
      if outlen > 2 {
        out[at], out[at + 1] := v / 0x40 % 0x20 + 0xc0, v % 0x40 + 0x80;
        ok, next := true, at + 2;
      }
    } else {
      if outlen > 3 {
        out[at], out[at + 1], out[at + 2] := v / 0x1000 % 0x10 + 0xe0, v / 0x40 % 0x40 + 0x80, v % 0x40 + 0x80;
        ok, next := true, at + 3;
      }
    }
  }

  /** Adds one unit to the text `x`, which fills the array up to `at`. */
  method TakeUnit(out: array<byte>, at: nat, room: nat, v: int, ghost was: bytes, ghost x: bytes)
    returns (ok: bool, next: nat)
    requires 0 < v < U16 && at < room <= out.Length == |was| && out[..at] == x && out[at..] == was[at..]
    modifies out
    ensures ok <==> at + |Encode(v)| + 1 <= room
    ensures ok ==> next == at + |Encode(v)| && out[..next] == x + Encode(v) && out[next..] == was[next..]
    ensures !ok ==> next == at && out[..at] == x && out[at..] == was[at..]
  {
    hide Encode;
    ghost var before := out[..];
    ok, next := PutUnit(out, at, room, v);
    assert out[..at] == before[..at];
    if ok {
      assert out[..next] == out[..at] + out[at..next];
    }
    assert out[next..] == before[next..] == before[at..][next - at..] == was[at..][next - at..];
  }

  /** Ends the text `x`, which fills the array up to `at`, with a NUL. */
  method EndText(out: array<byte>, at: nat, ghost was: bytes, ghost x: bytes)
    requires at < out.Length == |was| && out[..at] == x && out[at..] == was[at..]
    modifies out
    ensures out[..] == x + [0] + was[at + 1..]
  {
    assert out[at + 1..] == out[at..][1..] == was[at + 1..];
    out[at] := 0;
    assert out[..] == out[..at] + [out[at]] + out[at + 1..];
  }

  /** exif_convert_utf16_to_utf8. */
  method Convert(out: array<byte>, room: nat, b: bytes)
    requires room <= out.Length
    modifies out
    ensures room == 0 ==> out[..] == old(out[..])
    ensures room > 0 ==> |Converted(b, room)| <= room
    ensures room > 0 ==> out[..] == Converted(b, room) + old(out[..])[|Converted(b, room)|..]
  {
    hide Units, EncodeAll, Encode, Fitting, GetShort;
    if room == 0 {
      return;
    }
    ghost var was := out[..];
    ghost var us := Units(b);
    var rest, at := b, 0;
    ghost var n := 0;
    EncodeNone();
    assert us[..0] == [] && us[0..] == us;
    while true
      invariant 0 <= n <= |us| && us[n..] == Units(rest) && at == |EncodeAll(us[..n])| < room
      invariant out[..at] == EncodeAll(us[..n]) && out[at..] == was[at..]
      invariant Fitting(us, room, 0) == Fitting(us, room, n)
      decreases |rest|
    {
      UnitsStep(rest);
      FittingStep(us, room, n);
      if |rest| < 2 {
        break;
      }
      var v := GetShort(rest, 0, Intel);
      if v == 0 {
        break;
      }
      assert us[n] == us[n..][0] == v && us[n + 1..] == us[n..][1..];
      EncodeStep(us, n);
      var ok, next := TakeUnit(out, at, room, v, was, EncodeAll(us[..n]));
      if !ok {
        break;
      }
      at, n, rest := next, n + 1, rest[2..];
    }
    EndText(out, at, was, EncodeAll(us[..n]));
  }

  lemma {:induction false} UnitsStep(b: bytes)
    ensures |b| < 2 || GetShort(b, 0, Intel) == 0 ==> Units(b) == []
    ensures |b| >= 2 && GetShort(b, 0, Intel) != 0 ==> Units(b) == [GetShort(b, 0, Intel)] + Units(b[2..])
  {
    hide GetShort;
  }

  lemma {:induction false} FittingStep(us: seq<int>, room: nat, n: nat)
    requires Text(us) && n <= |us|
    ensures n < |us| && |EncodeAll(us[..n + 1])| + 1 <= room ==> Fitting(us, room, n) == Fitting(us, room, n + 1)
    ensures !(n < |us| && |EncodeAll(us[..n + 1])| + 1 <= room) ==> Fitting(us, room, n) == n
  {
    hide EncodeAll;
  }

  lemma {:induction false} EncodeStep(us: seq<int>, n: nat)
    requires Text(us) && n < |us|
    ensures EncodeAll(us[..n + 1]) == EncodeAll(us[..n]) + Encode(us[n])
  {
    hide Encode;
    assert us[..n + 1][..n] == us[..n];
  }
}
