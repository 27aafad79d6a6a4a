/** What the loader finds in a Fuji raw file: the JPEG image inside, by the offset the file names. */
module LoaderRaw {
  import opened Bytes
  import opened Loader
  import opened LoaderJpeg

  /** A skip that goes on behind the window. */
  lemma {:induction false} ScanSkips(c: Control, w: bytes, i: nat)
    requires |w| == WINDOW && i <= WINDOW && c.phase.SkipBytes? && c.size > WINDOW - i
    ensures Scan(c, w, i) == Stopped(c.(size := c.size - (WINDOW - i)), WINDOW)
    decreases WINDOW - i
  {
    if i < WINDOW {
      ScanSkips(c.(size := c.size - 1), w, i + 1);
    }
  }

  /** The first 84 bytes of a raw file are passed over; the number in the next four tells where the image is. */
  lemma {:induction false} RawStart(y: bytes, rest: bytes)
    requires |y| == 76
    ensures Reachable(Snapshot(Control(SizeByte24, FujiRaw, 0), [], []))
    ensures Run(INITIAL, FUJIFILM + y + rest) == Run(Snapshot(Control(SizeByte24, FujiRaw, 0), [], []), rest)
  {
    hide Run, Scan;
    var w := FUJIFILM + y[..4];
    var c := Control(SkipBytes, FujiRaw, 84);
    var s := Snapshot(Control(SkipBytes, FujiRaw, 72), [], []);
    assert LiesAt(w, 0, FUJIFILM);
    ScanSkips(c, w, 0);
    RunWindow(INITIAL, w, y[4..] + rest, (s, true));
    assert w[0..] + (y[4..] + rest) == FUJIFILM + y + rest;
    RunSkipped(s, y[4..] + rest);
    assert (y[4..] + rest)[72..] == rest;
  }

  /** The four bytes of the offset, at the start of a window. */
  lemma {:induction false} OffsetRead(o: nat, t: bytes)
    requires o < U32 && |t| >= WINDOW && LiesAt(t, 0, LongDigits(o, Motorola))
    ensures var c := Control(SkipBytes, Exif, if o < 86 then 0 else o - 86);
      && Sound(c) && Reachable(Snapshot(Control(SizeByte24, FujiRaw, 0), [], []))
      && Run(Snapshot(Control(SizeByte24, FujiRaw, 0), [], []), t) == From(c, t, 4)
  {
    hide Run, AfterScan, LongDigits;
    var w := t[..WINDOW];
    var s := Snapshot(Control(SizeByte24, FujiRaw, 0), [], []);
    var c := Control(SkipBytes, Exif, if o < 86 then 0 else o - 86);
    FourSizeBytes(o, w, t);
    RunWindow(s, w, t[WINDOW..], AfterScan(Scan(s.control, w, 0), w));
    assert w[0..] + t[WINDOW..] == t;
  }

  lemma {:induction false} FourSizeBytes(o: nat, w: bytes, t: bytes)
    requires o < U32 && |t| >= WINDOW && LiesAt(t, 0, LongDigits(o, Motorola)) && w == t[..WINDOW]
    ensures Scan(Control(SizeByte24, FujiRaw, 0), w, 0)
         == Scan(Control(SkipBytes, Exif, if o < 86 then 0 else o - 86), w, 4)
  {
    hide Digit;
    var d := LongDigits(o, Motorola);
    LongRoundTrip(o, Motorola);
    assert forall k :: 0 <= k < 4 ==> w[k] == t[0 + k] == d[k];
    var c1 := Control(SizeByte16, FujiRaw, 0x100_0000 * (w[0] as int));
    var c2 := Control(SizeByte08, FujiRaw, c1.size + 0x1_0000 * (w[1] as int));
    var c3 := Control(SizeByte00, FujiRaw, c2.size + 0x100 * (w[2] as int));
    assert ScanByte(Control(SizeByte24, FujiRaw, 0), w, 0) == Some(c1);
    assert ScanByte(c1, w, 1) == Some(c2);
    assert ScanByte(c2, w, 2) == Some(c3);
    assert c3.size + w[3] == o;
    assert ScanByte(c3, w, 3) == Some(Sized(FujiRaw, o));
  }

  /**
   A raw file that names the offset `o`: after the header with 76 bytes of its own, and the offset, come `z` up to two
   bytes behind the offset, that is up to behind the mark at the start of the image, and then the image's segments.
   */
  function RawFile(y: bytes, o: nat, z: bytes, segs: seq<Segment>, fill: nat, hi: byte, lo: byte, after: bytes): bytes
    requires forall s <- segs :: WellFormed(s)
  {
    FUJIFILM + y + (LongDigits(o, Motorola) + z + Body(segs, fill, hi, lo, after))
  }

  /** The bytes from behind the offset to behind the mark at the start of the image. */
  function Gap(o: nat): nat { if o < 86 then 0 else o - 86 }

  /** The place in its window at which the loader gets to the image's segments. */
  function RawPlace(o: nat): nat { Landing(4, Gap(o)) }

  /** The loader comes to the first segment. */
  lemma {:induction false} RawReached(y: bytes, o: nat, z: bytes, u: bytes, t: bytes) returns (t': bytes, i': nat)
    requires |y| == 76 && o < U32 && |z| == Gap(o) && |u| >= WINDOW
    requires t == FUJIFILM + y + (LongDigits(o, Motorola) + z + u)
    ensures i' <= WINDOW <= |t'| && t'[i'..] == u && i' % WINDOW == RawPlace(o)
    ensures Sound(Control(Read, Exif, 0)) && Run(INITIAL, t) == From(Control(Read, Exif, 0), t', i')
  {
    hide Run, From, LongDigits, Landing, LiesAt;
    var v := LongDigits(o, Motorola) + z + u;
    var c := Control(SkipBytes, Exif, Gap(o));
    RawStart(y, v);
    LiesFirst(LongDigits(o, Motorola), z + u, v);
    OffsetRead(o, v);
    assert v[4 + Gap(o)..] == u;
    t', i' := SkipFrom(c, v, 4);
  }

  lemma {:induction false} LiesFirst(a: bytes, r: bytes, b: bytes)
    requires b == a + r
    ensures LiesAt(b, 0, a)
  {
  }

  /**
   The EXIF segment of the image inside a raw file is collected, if no segment before it is taken for it from the place
   where the skip lands.
   */
  lemma {:induction false} RawFound(y: bytes, o: nat, z: bytes, segs: seq<Segment>, fill: nat, hi: byte, lo: byte,
                                    after: bytes)
    requires |y| == 76 && o < U32 && |z| == Gap(o) && (forall s <- segs :: WellFormed(s)) && fill > 0
    requires NoneTaken(segs, RawPlace(o)) && LiesAt(after, 0, EXIF_HEADER) && |after| >= WINDOW
    ensures Collected(Run(INITIAL, RawFile(y, o, z, segs, fill, hi, lo, after)), 0x100 * (hi as int) + lo, after)
  {
    hide Run, From, Collected, LongDigits, Landing, Fill, SegmentsBytes, NoneTaken;
    var t := RawFile(y, o, z, segs, fill, hi, lo, after);
    var t', i' := RawReached(y, o, z, Body(segs, fill, hi, lo, after), t);
    SamePlace(i', RawPlace(o), segs);
    Remaining(Control(Read, Exif, 0), t', i', segs, fill, hi, lo, after);
  }

  /** If one is taken for it, the first such segment is collected instead. */
  lemma {:induction false} RawTaken(y: bytes, o: nat, z: bytes, segs: seq<Segment>, fill: nat, hi: byte, lo: byte,
                                    after: bytes)
    requires |y| == 76 && o < U32 && |z| == Gap(o) && (forall s <- segs :: WellFormed(s)) && fill > 0
    requires !NoneTaken(segs, RawPlace(o)) && |after| >= WINDOW
    ensures var j := FirstTaken(segs, RawPlace(o));
      Collected(Run(INITIAL, RawFile(y, o, z, segs, fill, hi, lo, after)), |segs[j].payload| + 2,
                segs[j].payload + Body(segs[j + 1..], fill, hi, lo, after))
  {
    hide Run, From, Collected, LongDigits, Landing, Fill, SegmentsBytes, NoneTaken, FirstTaken;
    var t := RawFile(y, o, z, segs, fill, hi, lo, after);
    var u := Fill(fill) + ([MARKER_APP1 as byte, hi, lo] + after);
    var t', i' := RawReached(y, o, z, Body(segs, fill, hi, lo, after), t);
    SamePlace(i', RawPlace(o), segs);
    SameTaken(i', RawPlace(o), segs);
    FirstTakenFrom(Control(Read, Exif, 0), t', i', segs, u);
  }

  /**
   Whatever lies between, reading goes on right behind the mark at the start of the image, which lies at the offset.
   */
  lemma {:induction false} ImageAtOffset(y: bytes, o: nat, between: bytes, segs: seq<Segment>, fill: nat, hi: byte,
                                         lo: byte, after: bytes)
    requires |y| == 76 && 88 <= o < U32 && |between| == o - 88 && (forall s <- segs :: WellFormed(s)) && fill > 0
    requires NoneTaken(segs, RawPlace(o)) && LiesAt(after, 0, EXIF_HEADER) && |after| >= WINDOW
    ensures var file := FUJIFILM + y + LongDigits(o, Motorola) + between + Image(segs, fill, hi, lo, after);
      && file[o..] == Image(segs, fill, hi, lo, after)
      && Collected(Run(INITIAL, file), 0x100 * (hi as int) + lo, after)
  {
    hide Run, Collected, LongDigits, Body, NoneTaken, RawPlace;
    var z := between + [0xff, MARKER_SOI as byte];
    var file := FUJIFILM + y + LongDigits(o, Motorola) + between + Image(segs, fill, hi, lo, after);
    assert file == RawFile(y, o, z, segs, fill, hi, lo, after);
    RawFound(y, o, z, segs, fill, hi, lo, after);
  }
}
