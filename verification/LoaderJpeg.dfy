/** What the loader finds in a JPEG stream, wherever its twelve-byte window happens to lie. */
module LoaderJpeg {
  import opened Bytes
  import opened Loader

  /** A marker segment after at least one fill byte; its length field counts itself and the payload. */
  datatype Segment = Segment(fill: nat, marker: byte, payload: bytes)

  /**
   The markers of Annex B of ITU-T T.81 whose segments are passed over: a frame, Huffman tables, quantization tables,
   application segments, a comment.
   */
  predicate PassedOverMarker(m: byte)
  {
    m in {0xc0, 0xc4, 0xdb, 0xe0, 0xe2, 0xe3, 0xe4, 0xe5, 0xea, 0xeb, 0xed, 0xee, 0xfe}
  }

  /** A segment of one of those markers, or an APP1 segment of any kind. */
  predicate WellFormed(s: Segment)
  {
    s.fill > 0 && (PassedOverMarker(s.marker) || s.marker == 0xe1) && |s.payload| + 2 < U16
  }

  function Fill(n: nat): (f: bytes)
    ensures |f| == n
    ensures forall i :: 0 <= i < n ==> f[i] == 0xff
  {
    seq(n, _ => 0xff)
  }

  /** A segment from its marker on. */
  function MarkerBytes(s: Segment): bytes
  {
    [s.marker] + ShortDigits(|s.payload| + 2, Motorola) + s.payload
  }

  function SegmentBytes(s: Segment): bytes
    requires WellFormed(s)
  {
    Fill(s.fill) + MarkerBytes(s)
  }

  function SegmentsBytes(segs: seq<Segment>): bytes
    requires forall s <- segs :: WellFormed(s)
  {
    if segs == [] then [] else SegmentBytes(segs[0]) + SegmentsBytes(segs[1..])
  }

  // ---- Places in the window ----

  /** The place in its window of the marker of a segment that starts at place `i`. */
  function MarkerAt(i: nat, s: Segment): (m: nat)
    ensures m < WINDOW
  {
    (i + s.fill) % WINDOW
  }

  /**
   The place behind a skip of `n` bytes that starts at place `i`: what lies behind the window is skipped outside of it.
   */
  function Landing(i: nat, n: nat): (j: nat)
    ensures j < WINDOW
  {
    if i + n < WINDOW then i + n else 0
  }

  /** The place behind a segment that starts at place `i`: two length bytes follow the marker, and then the skip. */
  function Behind(i: nat, s: Segment): (j: nat)
    ensures j < WINDOW
  {
    Landing((MarkerAt(i, s) + 2) % WINDOW + 1, |s.payload|)
  }

  /** The payload agrees with the header as far as a window reaches that has the marker at place `m`. */
  predicate Agrees(m: nat, payload: bytes)
  {
    forall k :: 0 <= k < 6 && m + 3 + k < WINDOW ==> k < |payload| && payload[k] == EXIF_HEADER[k]
  }

  /** The loader takes the segment, starting at place `i`, for the EXIF segment. */
  predicate Taken(i: nat, s: Segment)
  {
    s.marker as int == MARKER_APP1 && Agrees(MarkerAt(i, s), s.payload)
  }

  /** None of the segments, the first of which starts at place `i`, is taken for the EXIF segment. */
  predicate NoneTaken(segs: seq<Segment>, i: nat)
  {
    segs == [] || (!Taken(i, segs[0]) && NoneTaken(segs[1..], Behind(i, segs[0])))
  }

  /**
   With this as its first segment the stream is taken for bare EXIF data: the last window that starts before the marker
   is complete has the header behind two bytes that would then be the length of the data.
   */
  predicate LooksBare(s: Segment)
  {
    MarkerAt(2, s) <= 1 && LiesAt(MarkerBytes(s), 2 - MarkerAt(2, s), EXIF_HEADER)
  }

  /** The segments behind the start of an image are all passed over. */
  predicate PassedOver(segs: seq<Segment>)
  {
    segs == [] || (!LooksBare(segs[0]) && NoneTaken(segs, 2))
  }

  // ---- Scanning from the middle of a window ----

  lemma {:induction false} AfterScanReachable(r: Scanned, w: bytes)
    requires |w| == WINDOW
    requires (r.Stopped? ==> r.at <= WINDOW && Sound(r.control) && (r.at < WINDOW ==> r.control.phase.ExifFound?))
    ensures Reachable(AfterScan(r, w).0)
  {
  }

  /** Going on from byte `i` of the window that starts `t`. */
  function From(c: Control, t: bytes, i: nat): (Snapshot, bool)
    requires Sound(c) && !c.format.FujiRaw? && i <= WINDOW <= |t|
  {
    var w := t[..WINDOW];
    ScanSound(c, w, i);
    AfterScanReachable(Scan(c, w, i), w);
    var r := AfterScan(Scan(c, w, i), w);
    if r.1 then Run(r.0, t[WINDOW..]) else (r.0, false)
  }

  /** A loader at the start of a window, in which it may detect a format. */
  lemma {:induction false} RunDetects(c: Control, d: Control, t: bytes)
    requires Sound(c) && Sound(d) && !d.format.FujiRaw? && WINDOW <= |t| && !c.phase.SkipBytes? && !c.phase.ExifFound?
    requires Detect(c, t[..WINDOW]) == d
    ensures Run(Snapshot(c, [], []), t) == From(d, t, 0)
  {
    hide Run, Scan, Detect, AfterScan;
    var w := t[..WINDOW];
    assert w[0..] + t[WINDOW..] == t;
    RunWindow(Snapshot(c, [], []), w, t[WINDOW..], AfterScan(Scan(Detect(c, w), w, 0), w));
  }

  /** The same where nothing is detected. */
  lemma {:induction false} RunIsFrom(c: Control, t: bytes)
    requires Sound(c) && !c.format.FujiRaw? && WINDOW <= |t| && !c.phase.SkipBytes? && !c.phase.ExifFound?
    requires Detect(c, t[..WINDOW]) == c
    ensures Run(Snapshot(c, [], []), t) == From(c, t, 0)
  {
    hide Run, From, Detect;
    RunDetects(c, c, t);
  }

  /** One byte further in the same window. */
  lemma {:induction false} Step(c: Control, t: bytes, i: nat, c': Control)
    requires Sound(c) && Sound(c') && !c.format.FujiRaw? && !c'.format.FujiRaw? && i < WINDOW <= |t|
    requires !c.phase.ExifFound?
    requires ScanByte(c, t[..WINDOW], i) == Some(c')
    ensures From(c, t, i) == From(c', t, i + 1)
  {
    hide Run, ScanByte, AfterScan;
  }

  predicate Known(c: Control) { c.format.Exif? || c.format.Jpeg? }

  /** At the end of a window the next one begins. */
  lemma {:induction false} Roll(c: Control, t: bytes, i: nat) returns (t': bytes, i': nat)
    requires Sound(c) && Known(c) && !c.phase.SkipBytes? && !c.phase.ExifFound?
    requires i <= WINDOW && |t| >= i + WINDOW
    ensures i' < WINDOW <= |t'| && t'[i'..] == t[i..] && i' == i % WINDOW
    ensures From(c, t, i) == From(c, t', i')
  {
    if i < WINDOW {
      t', i' := t, i;
    } else {
      t', i' := t[WINDOW..], 0;
      RunIsFrom(c, t');
    }
  }

  /** A skip of any length, wherever it starts and ends. */
  lemma {:induction false} SkipFrom(c: Control, t: bytes, i: nat) returns (t': bytes, i': nat)
    requires Sound(c) && Known(c) && c.phase.SkipBytes?
    requires i <= WINDOW && |t| >= i + c.size + WINDOW
    ensures i' <= WINDOW <= |t'| && t'[i'..] == t[i + c.size..] && i' % WINDOW == Landing(i, c.size)
    ensures From(c, t, i) == From(Control(Read, c.format, 0), t', i')
    decreases c.size
  {
    hide From, ScanByte, Sound;
    if i == WINDOW {
      SkipOverEnd(c, t);
      t', i' := t[WINDOW + c.size..], 0;
    } else if c.size == 0 {
      SkipNothing(c, t, i);
      t', i' := t, i;
    } else if c.size == 1 {
      SkipByte(c, t, i);
      t', i' := t, i + 1;
    } else {
      SkipByte(c, t, i);
      t', i' := SkipFrom(c.(size := c.size - 1), t, i + 1);
      assert t[i + 1 + (c.size - 1)..] == t[i + c.size..];
    }
  }

  /** One byte of a skip; with the last one reading goes on. */
  lemma {:induction false} SkipByte(c: Control, t: bytes, i: nat)
    requires Sound(c) && Known(c) && c.phase.SkipBytes? && c.size > 0 && i < WINDOW <= |t|
    ensures Sound(Control(Read, c.format, 0)) && (c.size > 1 ==> Sound(c.(size := c.size - 1)))
    ensures c.size == 1 ==> From(c, t, i) == From(Control(Read, c.format, 0), t, i + 1)
    ensures c.size > 1 ==> From(c, t, i) == From(c.(size := c.size - 1), t, i + 1)
  {
    hide From;
    Step(c, t, i, if c.size == 1 then Control(Read, c.format, 0) else c.(size := c.size - 1));
  }

  lemma {:induction false} SkipNothing(c: Control, t: bytes, i: nat)
    requires Sound(c) && Known(c) && c.phase.SkipBytes? && c.size == 0 && i < WINDOW <= |t|
    ensures From(c, t, i) == From(Control(Read, c.format, 0), t, i)
  {
    hide Run, AfterScan;
  }

  lemma {:induction false} SkipOverEnd(c: Control, t: bytes)
    requires Sound(c) && Known(c) && c.phase.SkipBytes? && |t| >= WINDOW + c.size + WINDOW
    ensures From(c, t, WINDOW) == From(Control(Read, c.format, 0), t[WINDOW + c.size..], 0)
  {
    hide Run;
    var u := t[WINDOW..];
    var c' := Control(Read, c.format, 0);
    if c.size > 0 {
      RunSkipped(Snapshot(c, [], []), u);
    }
    assert u[c.size..] == t[WINDOW + c.size..];
    RunIsFrom(c', u[c.size..]);
  }

  // ---- Segments ----

  /** Fill bytes are passed over. */
  lemma {:induction false} FillFrom(c: Control, t: bytes, i: nat, n: nat, u: bytes) returns (t': bytes, i': nat)
    requires Sound(c) && Known(c) && c.phase.Read? && i <= WINDOW <= |t|
    requires t[i..] == Fill(n) + u && |u| >= WINDOW
    ensures i' <= WINDOW <= |t'| && t'[i'..] == u && i' % WINDOW == (i + n) % WINDOW
    ensures From(c, t, i) == From(c, t', i')
    decreases n
  {
    hide From, AfterScan, Sound, Fill;
    if n == 0 {
      assert Fill(0) + u == u;
      t', i' := t, i;
    } else {
      SameMarker(i % WINDOW, i, n);
      t', i' := Roll(c, t, i);
      assert (Fill(n) + u)[1..] == Fill(n - 1) + u;
      assert t'[i'..][0] == 0xff && t'[i' + 1..] == t'[i'..][1..];
      assert ScanByte(c, t'[..WINDOW], i') == Some(c);
      Step(c, t', i', c);
      t', i' := FillFrom(c, t', i' + 1, n - 1, u);
    }
  }

  /** The two length bytes, wherever the window ends. */
  lemma {:induction false} LengthFrom(format: Format, t: bytes, i: nat, hi: byte, lo: byte, u: bytes)
    returns (t': bytes, i': nat)
    requires (format.Exif? || format.Jpeg?) && i <= WINDOW <= |t| && t[i..] == [hi, lo] + u && |u| >= WINDOW
    ensures i' <= WINDOW <= |t'| && t'[i'..] == u && i' == (i + 1) % WINDOW + 1
    ensures Sound(Sized(format, 0x100 * (hi as int) + lo))
    ensures From(Control(SizeByte08, format, 0), t, i) == From(Sized(format, 0x100 * (hi as int) + lo), t', i')
  {
    hide From, AfterScan;
    var c := Control(SizeByte08, format, 0);
    SameMarker(i % WINDOW, i, 1);
    t', i' := Roll(c, t, i);
    assert t'[i'..][0] == hi && t'[i' + 1..] == t'[i'..][1..] == [lo] + u;
    var c1 := Control(SizeByte00, format, 0x100 * (hi as int));
    assert Sound(c1) by { SizeBytes(0, hi); }
    Step(c, t', i', c1);
    t', i' := Roll(c1, t', i' + 1);
    assert t'[i'..][0] == lo && t'[i' + 1..] == t'[i'..][1..] == u;
    Step(c1, t', i', Sized(format, 0x100 * (hi as int) + lo));
    i' := i' + 1;
  }

  /** Behind a segment comes a fill byte, which is not in the header: only the payload counts. */
  lemma {:induction false} LooksAsItAgrees(t: bytes, m: nat, s: Segment, u: bytes)
    requires m < WINDOW <= |t| && t[m..] == MarkerBytes(s) + u && u != [] && u[0] == 0xff
    ensures LooksLikeExif(t[..WINDOW], m) <==> Agrees(m, s.payload)
  {
    hide Digit;
    var n := |s.payload|;
    assert forall k :: 0 <= k < n && m + 3 + k < WINDOW ==> t[..WINDOW][m + 3 + k] == t[m..][3 + k] == s.payload[k];
    if n < 6 && m + 3 + n < WINDOW {
      assert t[..WINDOW][m + 3 + n] == t[m..][3 + n] == u[0] != EXIF_HEADER[n];
      assert !Agrees(m, s.payload);
    }
  }

  /** A marker that is not taken for that of the EXIF segment. */
  lemma {:induction false} MarkerByte(c: Control, t: bytes, i: nat)
    requires Sound(c) && !c.format.FujiRaw? && c.phase.Read? && i < WINDOW <= |t|
    requires Skippable(t[i]) || (t[i] as int == MARKER_APP1 && !LooksLikeExif(t[..WINDOW], i))
    ensures From(c, t, i) == From(Control(SizeByte08, Jpeg, 0), t, i + 1)
  {
    hide LooksLikeExif;
    Step(c, t, i, Control(SizeByte08, Jpeg, 0));
  }

  lemma {:induction false} LengthOf(s: Segment)
    requires |s.payload| + 2 < U16
    ensures var d := ShortDigits(|s.payload| + 2, Motorola); 0x100 * (d[0] as int) + d[1] == |s.payload| + 2
  {
    hide Digit;
    ShortRoundTrip(|s.payload| + 2, Motorola);
  }

  /** A marker, its length and its payload, from the marker on. */
  lemma {:induction false} BodyFrom(c: Control, t: bytes, i: nat, s: Segment, u: bytes) returns (t': bytes, i': nat)
    requires Sound(c) && !c.format.FujiRaw? && c.phase.Read? && WellFormed(s) && i < WINDOW <= |t|
    requires t[i..] == MarkerBytes(s) + u && |u| >= WINDOW && u[0] == 0xff
    requires s.marker as int == MARKER_APP1 ==> !Agrees(i, s.payload)
    ensures i' <= WINDOW <= |t'| && t'[i'..] == u && i' % WINDOW == Landing((i + 2) % WINDOW + 1, |s.payload|)
    ensures From(c, t, i) == From(Control(Read, Jpeg, 0), t', i')
  {
    hide ScanByte, Digit, LooksLikeExif, Agrees, From, Sound, Landing;
    var d := ShortDigits(|s.payload| + 2, Motorola);
    assert t[i] == t[i..][0] == s.marker;
    assert t[i + 1..] == t[i..][1..] == [d[0], d[1]] + (s.payload + u);
    LooksAsItAgrees(t, i, s, u);
    MarkerByte(c, t, i);
    LengthOf(s);
    t', i' := LengthFrom(Jpeg, t, i + 1, d[0], d[1], s.payload + u);
    assert t'[i' + |s.payload|..] == t'[i'..][|s.payload|..] == u;
    t', i' := SkipFrom(Control(SkipBytes, Jpeg, |s.payload|), t', i');
  }

  /** Going on to the marker of a segment. */
  lemma {:induction false} ToMarker(c: Control, t: bytes, i: nat, s: Segment, u: bytes) returns (t': bytes, i': nat)
    requires Sound(c) && Known(c) && c.phase.Read? && WellFormed(s) && i <= WINDOW <= |t|
    requires t[i..] == SegmentBytes(s) + u && |u| >= WINDOW
    ensures i' == MarkerAt(i, s) && |t'| >= WINDOW && t'[i'..] == MarkerBytes(s) + u
    ensures From(c, t, i) == From(c, t', i')
  {
    hide ScanByte, Digit, Sound, From, MarkerBytes;
    assert SegmentBytes(s) + u == Fill(s.fill) + (MarkerBytes(s) + u);
    t', i' := FillFrom(c, t, i, s.fill, MarkerBytes(s) + u);
    t', i' := Roll(c, t', i');
  }

  /** A whole segment is skipped, exactly as long as it says it is. */
  lemma {:induction false} SegmentFrom(c: Control, t: bytes, i: nat, s: Segment, u: bytes) returns (t': bytes, i': nat)
    requires Sound(c) && Known(c) && c.phase.Read? && WellFormed(s) && i <= WINDOW <= |t| && !Taken(i, s)
    requires t[i..] == SegmentBytes(s) + u && |u| >= WINDOW && u[0] == 0xff
    ensures i' <= WINDOW <= |t'| && t'[i'..] == u && i' % WINDOW == Behind(i, s)
    ensures From(c, t, i) == From(Control(Read, Jpeg, 0), t', i')
  {
    hide ScanByte, Digit, Sound, From, Agrees, MarkerBytes, SegmentBytes, Landing;
    t', i' := ToMarker(c, t, i, s, u);
    t', i' := BodyFrom(c, t', i', s, u);
  }

  lemma {:induction false} SamePlace(i: nat, j: nat, segs: seq<Segment>)
    requires i % WINDOW == j % WINDOW
    ensures NoneTaken(segs, i) == NoneTaken(segs, j)
    ensures segs != [] ==> Taken(i, segs[0]) == Taken(j, segs[0]) && Behind(i, segs[0]) == Behind(j, segs[0])
  {
    if segs != [] {
      SameMarker(i, j, segs[0].fill);
    }
  }

  lemma {:induction false} SameMarker(i: nat, j: nat, n: nat)
    requires i % WINDOW == j % WINDOW
    ensures (i + n) % WINDOW == (j + n) % WINDOW
  {
    var r := i % WINDOW + n;
    DivModUnique(i + n, WINDOW, i / WINDOW + r / WINDOW, r % WINDOW);
    DivModUnique(j + n, WINDOW, j / WINDOW + r / WINDOW, r % WINDOW);
  }

  /** Every segment starts with a fill byte, and so does what comes after it. */
  lemma {:induction false} StartsWithFill(segs: seq<Segment>, u: bytes)
    requires (forall s <- segs :: WellFormed(s)) && |u| >= WINDOW && u[0] == 0xff
    ensures |SegmentsBytes(segs) + u| >= WINDOW && (SegmentsBytes(segs) + u)[0] == 0xff
  {
    hide MarkerBytes;
    if segs != [] {
      assert SegmentBytes(segs[0])[0] == 0xff;
      assert (SegmentsBytes(segs) + u)[0] == SegmentBytes(segs[0])[0];
    }
  }

  lemma {:induction false} SegmentsFrom(c: Control, t: bytes, i: nat, segs: seq<Segment>, u: bytes)
    returns (c': Control, t': bytes, i': nat)
    requires Sound(c) && Known(c) && c.phase.Read? && i <= WINDOW <= |t|
    requires (forall s <- segs :: WellFormed(s)) && NoneTaken(segs, i)
    requires t[i..] == SegmentsBytes(segs) + u && |u| >= WINDOW && u[0] == 0xff
    ensures Sound(c') && Known(c') && c'.phase.Read? && i' <= WINDOW <= |t'| && t'[i'..] == u
    ensures From(c, t, i) == From(c', t', i')
    decreases |segs|
  {
    hide From, Sound, SegmentBytes, Taken, Behind;
    if segs == [] {
      assert [] + u == u;
      c', t', i' := c, t, i;
    } else {
      var v := SegmentsBytes(segs[1..]) + u;
      StartsWithFill(segs[1..], u);
      assert SegmentsBytes(segs) + u == SegmentBytes(segs[0]) + v;
      t', i' := SegmentFrom(c, t, i, segs[0], v);
      assert Sound(Control(Read, Jpeg, 0)) by { JpegSound(); }
      SamePlace(i', Behind(i, segs[0]), segs[1..]);
      c', t', i' := SegmentsFrom(Control(Read, Jpeg, 0), t', i', segs[1..], u);
    }
  }

  lemma {:induction false} JpegSound()
    ensures Sound(Control(Read, Jpeg, 0))
  {
  }

  // ---- The EXIF segment ----

  /** The first `n` bytes, or all there are. */
  function UpTo(x: bytes, n: nat): bytes { if n < |x| then x[..n] else x }

  /** The outcome of a run that has come to the EXIF data of `size` bytes with `after` left to read. */
  predicate Collected(r: (Snapshot, bool), size: nat, after: bytes)
  {
    && r.0.control == Control(ExifFound, Exif, size)
    && r.0.got == UpTo(after, size)
    && r.1 == (|after| < size)
  }

  lemma {:induction false} FoundFrom(size: nat, t: bytes, i: nat)
    requires size < U16 && i <= WINDOW <= |t| && |t| - i >= WINDOW
    ensures Collected(From(Control(ExifFound, Exif, size), t, i), size, t[i..])
  {
    hide Run;
    var c := Control(ExifFound, Exif, size);
    var w := t[..WINDOW];
    if i < WINDOW {
      assert w[i..] + t[WINDOW..] == t[i..];
      FoundInWindow(c, w, i, t[WINDOW..]);
    } else {
      RunFound(Snapshot(c, [], []), t[WINDOW..]);
      if size == 0 {
        assert t[i..][..0] == [];
      } else {
        assert [] + UpTo(t[i..], size) == UpTo(t[i..], size);
        assert t[i..][..|t[i..]|] == t[i..];
      }
    }
  }

  lemma {:induction false} FoundInWindow(c: Control, w: bytes, i: nat, rest: bytes)
    requires |w| == WINDOW && i < WINDOW && c.phase.ExifFound? && c.format.Exif? && c.size < U16
    ensures var r := AfterScan(Stopped(c, i), w);
      Reachable(r.0) && Collected(if r.1 then Run(r.0, rest) else (r.0, false), c.size, w[i..] + rest)
  {
    hide Run;
    var r := AfterScan(Stopped(c, i), w);
    var x := w[i..];
    assert [] + x[..if |x| < c.size then |x| else c.size] == UpTo(x, c.size);
    if r.1 {
      RunFound(r.0, rest);
      assert r.0.got == x;
      var n := c.size - |x|;
      assert x + rest[..if |rest| < n then |rest| else n] == UpTo(x + rest, c.size);
    } else {
      assert UpTo(x + rest, c.size) == x[..c.size];
    }
  }

  /** An APP1 marker that the loader takes for EXIF. */
  lemma {:induction false} App1From(c: Control, t: bytes, i: nat, hi: byte, lo: byte, after: bytes)
    requires Sound(c) && !c.format.FujiRaw? && c.phase.Read? && i < WINDOW <= |t|
    requires t[i..] == [MARKER_APP1 as byte, hi, lo] + after && |after| >= WINDOW
    requires LooksLikeExif(t[..WINDOW], i)
    ensures Collected(From(c, t, i), 0x100 * (hi as int) + lo, after)
  {
    hide Digit, From, Collected;
    var size := 0x100 * (hi as int) + lo;
    assert t[i] == t[i..][0] && t[i + 1..] == t[i..][1..] == [hi, lo] + after;
    Step(c, t, i, Control(SizeByte08, Exif, 0));
    var t', i' := LengthFrom(Exif, t, i + 1, hi, lo, after);
    FoundFrom(size, t', i');
  }

  /** In a true EXIF segment the bytes that are compared always match. */
  lemma {:induction false} HeaderMatches(t: bytes, i: nat, hi: byte, lo: byte, after: bytes)
    requires i < WINDOW <= |t| && t[i..] == [MARKER_APP1 as byte, hi, lo] + after && LiesAt(after, 0, EXIF_HEADER)
    ensures LooksLikeExif(t[..WINDOW], i)
  {
    forall k | 0 <= k < 6 && i + 3 + k < WINDOW ensures t[..WINDOW][i + 3 + k] == EXIF_HEADER[k] {
      assert t[i + 3 + k] == t[i..][3 + k] == after[0 + k];
    }
  }

  // ---- The start of the stream ----

  lemma {:induction false} PassFill(t: bytes, n: nat)
    requires n <= WINDOW <= |t| && forall k :: 0 <= k < n ==> t[k] == 0xff || t[k] as int == MARKER_SOI
    ensures From(START, t, 0) == From(START, t, n)
  {
    hide From;
    if n > 0 {
      PassFill(t, n - 1);
      Step(START, t, n - 1, START);
    }
  }

  /** A window that starts with fill is not that of a raw file. */
  lemma {:induction false} NotRaw(w: bytes)
    requires |w| == WINDOW && w[0] != FUJIFILM[0]
    ensures Detect(START, w) == if LiesAt(w, 2, EXIF_HEADER) then Control(SizeByte08, Exif, 0) else START
  {
    hide LiesAt;
    ByteOf(w, 0, FUJIFILM, 0);
  }

  lemma {:induction false} ByteOf(b: bytes, at: nat, x: bytes, k: nat)
    requires k < |x|
    ensures LiesAt(b, at, x) ==> at + k < |b| && b[at + k] == x[k]
  {
  }

  /** While there is nothing but fill, one window follows the other; the last of them has `n` fill bytes. */
  lemma {:induction false} FillWindows(t: bytes, n: nat) returns (t': bytes)
    requires |t| >= n + WINDOW && forall k :: 0 <= k < n ==> t[k] == 0xff || t[k] as int == MARKER_SOI
    ensures |t'| >= n % WINDOW + WINDOW && t'[n % WINDOW..] == t[n..]
    ensures forall k :: 0 <= k < n % WINDOW ==> t'[k] == t[n - n % WINDOW + k]
    ensures Run(INITIAL, t) == Run(INITIAL, t')
    decreases n
  {
    hide Run, From, Detect;
    if n < WINDOW {
      t' := t;
    } else {
      NotRaw(t[..WINDOW]);
      NoHeader(t[..WINDOW]);
      RunIsFrom(START, t);
      PassFill(t, WINDOW);
      FromEnd(t);
      var u := t[WINDOW..];
      assert u[n - WINDOW..] == t[n..];
      SameMarker(n - WINDOW, n, 0);
      t' := FillWindows(u, n - WINDOW);
    }
  }

  lemma {:induction false} NoHeader(w: bytes)
    requires |w| == WINDOW && w[2] != EXIF_HEADER[0]
    ensures !LiesAt(w, 2, EXIF_HEADER)
  {
    hide LiesAt;
    ByteOf(w, 2, EXIF_HEADER, 0);
  }

  lemma {:induction false} FromEnd(t: bytes)
    requires WINDOW <= |t|
    ensures From(START, t, WINDOW) == Run(INITIAL, t[WINDOW..])
  {
    hide Run;
  }

  /** The header lies at place 2 of a window that starts with `p` fill bytes before `v`. */
  predicate HeaderAtTwo(p: nat, v: bytes)
  {
    p <= 1 && LiesAt(v, 2 - p, EXIF_HEADER)
  }

  /** A marker is none of the bytes a known format starts with. */
  predicate IsMarker(m: byte) { m != EXIF_HEADER[0] && m != FUJIFILM[0] }

  lemma {:induction false} LiesInFront(t: bytes, n: nat, at: nat, x: bytes)
    requires at + |x| <= n <= |t|
    ensures LiesAt(t[..n], at, x) <==> LiesAt(t, at, x)
  {
    if LiesAt(t[..n], at, x) {
      assert forall i :: 0 <= i < |x| ==> t[..n][at + i] == x[i];
    }
  }

  lemma {:induction false} LiesInBack(t: bytes, p: nat, at: nat, x: bytes)
    requires p <= |t|
    ensures LiesAt(t[p..], at, x) <==> LiesAt(t, p + at, x)
  {
    if LiesAt(t[p..], at, x) {
      forall i | 0 <= i < |x| ensures t[p + at + i] == x[i] {
        assert t[p..][at + i] == x[i];
      }
    }
    if LiesAt(t, p + at, x) {
      forall i | 0 <= i < |x| ensures t[p..][at + i] == x[i] {
        assert t[p + at + i] == x[i];
      }
    }
  }

  lemma {:induction false} HeaderInWindow(t: bytes, p: nat, v: bytes)
    requires p < WINDOW <= |t| && t[p..] == v && |v| >= WINDOW && IsMarker(v[0])
    requires forall k :: 0 <= k < p ==> t[k] == 0xff || t[k] as int == MARKER_SOI
    ensures LiesAt(t[..WINDOW], 2, EXIF_HEADER) <==> HeaderAtTwo(p, v)
    ensures t[0] != FUJIFILM[0]
  {
    var w := t[..WINDOW];
    if p >= 2 {
      assert p == 2 ==> w[2] == t[p..][0];
      assert w[2] != EXIF_HEADER[0];
      NoHeader(w);
    } else {
      LiesInFront(t, WINDOW, 2, EXIF_HEADER);
      LiesInBack(t, p, 2 - p, EXIF_HEADER);
    }
    assert p == 0 ==> t[0] == t[p..][0];
  }

  lemma {:induction false} StartFrom(t: bytes, p: nat, v: bytes)
    requires p < WINDOW <= |t| && t[p..] == v && |v| >= WINDOW && IsMarker(v[0])
    requires forall k :: 0 <= k < p ==> t[k] == 0xff || t[k] as int == MARKER_SOI
    ensures !HeaderAtTwo(p, v) ==> Run(INITIAL, t) == From(START, t, p)
    ensures HeaderAtTwo(p, v) ==> Run(INITIAL, t) == From(Control(SizeByte08, Exif, 0), t, 0)
  {
    hide Run, From, HeaderAtTwo, LiesAt, Detect, IsMarker;
    HeaderInWindow(t, p, v);
    NotRaw(t[..WINDOW]);
    if HeaderAtTwo(p, v) {
      RunDetects(START, Control(SizeByte08, Exif, 0), t);
    } else {
      RunIsFrom(START, t);
      PassFill(t, p);
    }
  }

  /** A stream that starts with fill after SOI: it comes to `v` at a place in a window that only the fill determines. */
  lemma {:induction false} StartAt(n: nat, v: bytes, t: bytes) returns (t': bytes)
    requires 0 < n && |v| >= WINDOW && IsMarker(v[0]) && t == [0xff, MARKER_SOI as byte] + Fill(n) + v
    ensures var p := (2 + n) % WINDOW;
      && |t'| >= p + WINDOW && t'[p..] == v
      && (HeaderAtTwo(p, v) ==> t' == Fill(p) + v && Run(INITIAL, t) == From(Control(SizeByte08, Exif, 0), t', 0))
      && (!HeaderAtTwo(p, v) ==> Run(INITIAL, t) == From(START, t', p))
  {
    hide Run, From, LiesAt, Fill, IsMarker;
    var p := (2 + n) % WINDOW;
    assert forall k :: 2 <= k < 2 + n ==> t[k] == Fill(n)[k - 2];
    t' := FillWindows(t, 2 + n);
    assert t[2 + n..] == v;
    StartFrom(t', p, v);
    if HeaderAtTwo(p, v) {
      assert t' == t'[..p] + t'[p..];
      assert t'[..p] == Fill(p);
    }
  }

  /** The stream from the first segment on. */
  function Body(segs: seq<Segment>, fill: nat, hi: byte, lo: byte, after: bytes): bytes
    requires forall s <- segs :: WellFormed(s)
  {
    SegmentsBytes(segs) + (Fill(fill) + ([MARKER_APP1 as byte, hi, lo] + after))
  }

  /** An image whose EXIF segment, behind others, has the length bytes `hi` and `lo` and goes on with `after`. */
  function Image(segs: seq<Segment>, fill: nat, hi: byte, lo: byte, after: bytes): bytes
    requires forall s <- segs :: WellFormed(s)
  {
    [0xff, MARKER_SOI as byte] + Body(segs, fill, hi, lo, after)
  }

  /** The segments after the first, then the EXIF segment. */
  lemma {:induction false} Remaining(c0: Control, t: bytes, i: nat, segs: seq<Segment>, fill: nat, hi: byte, lo: byte,
                                     after: bytes)
    requires (forall s <- segs :: WellFormed(s)) && NoneTaken(segs, i) && fill > 0
    requires LiesAt(after, 0, EXIF_HEADER) && |after| >= WINDOW
    requires Sound(c0) && Known(c0) && c0.phase.Read?
    requires i <= WINDOW <= |t| && t[i..] == Body(segs, fill, hi, lo, after)
    ensures Collected(From(c0, t, i), 0x100 * (hi as int) + lo, after)
  {
    hide From, Collected, LooksLikeExif, SegmentsBytes, NoneTaken;
    var app1 := [MARKER_APP1 as byte, hi, lo] + after;
    var c, t', i' := SegmentsFrom(c0, t, i, segs, Fill(fill) + app1);
    t', i' := FillFrom(c, t', i', fill, app1);
    t', i' := Roll(c, t', i');
    HeaderMatches(t', i', hi, lo, after);
    App1From(c, t', i', hi, lo, after);
  }

  lemma {:induction false} ExifAlone(fill: nat, hi: byte, lo: byte, after: bytes, t: bytes)
    requires 0 < fill && LiesAt(after, 0, EXIF_HEADER) && |after| >= WINDOW
    requires t == [0xff, MARKER_SOI as byte] + Fill(fill) + ([MARKER_APP1 as byte, hi, lo] + after)
    ensures Collected(Run(INITIAL, t), 0x100 * (hi as int) + lo, after)
  {
    hide From, Run, Collected, LooksLikeExif, Fill;
    var v := [MARKER_APP1 as byte, hi, lo] + after;
    var p := (2 + fill) % WINDOW;
    var t' := StartAt(fill, v, t);
    assert v[3] == after[0 + 0] == EXIF_HEADER[0];
    if p <= 1 {
      ByteOf(v, 2 - p, EXIF_HEADER, 1 + p);
    }
    HeaderMatches(t', p, hi, lo, after);
    App1From(START, t', p, hi, lo, after);
  }

  /**
   What looks like the header of bare data lies within the segment: a fill byte follows, which is not in the header.
   */
  lemma {:induction false} BareByItself(s: Segment, u: bytes)
    requires u != [] && u[0] == 0xff
    ensures LooksBare(s) <==> HeaderAtTwo(MarkerAt(2, s), MarkerBytes(s) + u)
  {
    hide Digit, MarkerAt;
    var p, x := MarkerAt(2, s), MarkerBytes(s);
    if p <= 1 {
      if 2 - p + 6 <= |x| {
        LiesInFront(x + u, |x|, 2 - p, EXIF_HEADER);
        assert (x + u)[..|x|] == x;
      } else {
        var k := |x| - (2 - p);
        assert (x + u)[2 - p + k] == u[0] != EXIF_HEADER[k];
      }
    }
  }

  /** The first segment, if there is one. */
  lemma {:induction false} FirstSegment(s: Segment, u: bytes, t: bytes) returns (t': bytes)
    requires WellFormed(s) && |u| >= WINDOW && u[0] == 0xff && t == [0xff, MARKER_SOI as byte] + (SegmentBytes(s) + u)
    ensures var p, v := MarkerAt(2, s), MarkerBytes(s) + u;
      && |t'| >= p + WINDOW && t'[p..] == v
      && (LooksBare(s) ==> t' == Fill(p) + v && Run(INITIAL, t) == From(Control(SizeByte08, Exif, 0), t', 0))
      && (!LooksBare(s) ==> Run(INITIAL, t) == From(START, t', p))
  {
    hide From, Run, Digit, Fill, LooksBare, HeaderAtTwo;
    var v := MarkerBytes(s) + u;
    assert t == [0xff, MARKER_SOI as byte] + Fill(s.fill) + v;
    BareByItself(s, u);
    t' := StartAt(s.fill, v, t);
  }

  lemma {:induction false} SegmentsThenExif(s: Segment, segs: seq<Segment>, fill: nat, hi: byte, lo: byte,
                                            after: bytes, t: bytes)
    requires WellFormed(s) && (forall s' <- segs :: WellFormed(s')) && fill > 0
    requires !LooksBare(s) && !Taken(2, s) && NoneTaken(segs, Behind(2, s))
    requires LiesAt(after, 0, EXIF_HEADER) && |after| >= WINDOW
    requires t == [0xff, MARKER_SOI as byte] + (SegmentBytes(s) + Body(segs, fill, hi, lo, after))
    ensures Collected(Run(INITIAL, t), 0x100 * (hi as int) + lo, after)
  {
    hide From, Run, Collected, SegmentsBytes, MarkerBytes, SegmentBytes, LooksBare, Agrees, Fill, NoneTaken;
    var u := Body(segs, fill, hi, lo, after);
    StartsWithFill(segs, Fill(fill) + ([MARKER_APP1 as byte, hi, lo] + after));
    var t' := FirstSegment(s, u, t);
    var i';
    t', i' := BodyFrom(START, t', MarkerAt(2, s), s, u);
    SamePlace(i', Behind(2, s), segs);
    Remaining(Control(Read, Jpeg, 0), t', i', segs, fill, hi, lo, after);
  }

  /**
   The loader skips every segment by its declared length and never misses the EXIF segment, wherever its window lies:
   what it collects starts with that segment's payload. All it asks is that no segment before is taken for it.
   */
  lemma {:induction false} ExifIsFound(segs: seq<Segment>, fill: nat, hi: byte, lo: byte, after: bytes)
    requires (forall s <- segs :: WellFormed(s)) && fill > 0 && PassedOver(segs)
    requires LiesAt(after, 0, EXIF_HEADER) && |after| >= WINDOW
    ensures Collected(Run(INITIAL, Image(segs, fill, hi, lo, after)), 0x100 * (hi as int) + lo, after)
  {
    hide Run, Collected, Fill, SegmentBytes, LooksBare, Taken;
    var t := Image(segs, fill, hi, lo, after);
    if segs == [] {
      assert t == [0xff, MARKER_SOI as byte] + Fill(fill) + ([MARKER_APP1 as byte, hi, lo] + after);
      ExifAlone(fill, hi, lo, after, t);
    } else {
      assert Body(segs, fill, hi, lo, after) == SegmentBytes(segs[0]) + Body(segs[1..], fill, hi, lo, after);
      SegmentsThenExif(segs[0], segs[1..], fill, hi, lo, after, t);
    }
  }

  // ---- What is collected instead ----

  /** The first segment that is taken for the EXIF segment. */
  function FirstTaken(segs: seq<Segment>, i: nat): (j: nat)
    requires !NoneTaken(segs, i)
    ensures j < |segs|
  {
    if Taken(i, segs[0]) then 0 else 1 + FirstTaken(segs[1..], Behind(i, segs[0]))
  }

  /** A taken segment, met by its marker, is what is collected. */
  lemma {:induction false} TakenFrom(c: Control, t: bytes, i: nat, s: Segment, u: bytes)
    requires Sound(c) && !c.format.FujiRaw? && c.phase.Read? && WellFormed(s) && i < WINDOW <= |t|
    requires t[i..] == MarkerBytes(s) + u && |u| >= WINDOW && u[0] == 0xff
    requires s.marker as int == MARKER_APP1 && Agrees(i, s.payload)
    ensures Collected(From(c, t, i), |s.payload| + 2, s.payload + u)
  {
    hide From, Collected, Digit, LooksLikeExif, Agrees;
    var d := ShortDigits(|s.payload| + 2, Motorola);
    assert t[i..] == [MARKER_APP1 as byte, d[0], d[1]] + (s.payload + u);
    LooksAsItAgrees(t, i, s, u);
    LengthOf(s);
    App1From(c, t, i, d[0], d[1], s.payload + u);
  }

  lemma {:induction false} FirstTakenFrom(c: Control, t: bytes, i: nat, segs: seq<Segment>, u: bytes)
    requires Sound(c) && Known(c) && c.phase.Read? && i <= WINDOW <= |t|
    requires (forall s <- segs :: WellFormed(s)) && !NoneTaken(segs, i)
    requires t[i..] == SegmentsBytes(segs) + u && |u| >= WINDOW && u[0] == 0xff
    ensures var j := FirstTaken(segs, i);
      Collected(From(c, t, i), |segs[j].payload| + 2, segs[j].payload + (SegmentsBytes(segs[j + 1..]) + u))
    decreases |segs|
  {
    hide From, Sound, SegmentBytes, Agrees, Behind, Collected, MarkerBytes;
    var v := SegmentsBytes(segs[1..]) + u;
    StartsWithFill(segs[1..], u);
    assert SegmentsBytes(segs) + u == SegmentBytes(segs[0]) + v;
    if Taken(i, segs[0]) {
      var t', i' := ToMarker(c, t, i, segs[0], v);
      TakenFrom(c, t', i', segs[0], v);
    } else {
      var t', i' := SegmentFrom(c, t, i, segs[0], v);
      assert Sound(Control(Read, Jpeg, 0)) by { JpegSound(); }
      SamePlace(i', Behind(i, segs[0]), segs[1..]);
      SameTaken(i', Behind(i, segs[0]), segs[1..]);
      FirstTakenFrom(Control(Read, Jpeg, 0), t', i', segs[1..], u);
      var j := FirstTaken(segs[1..], i');
      assert segs[1..][j] == segs[j + 1] && segs[1..][j + 1..] == segs[j + 2..];
    }
  }

  lemma {:induction false} SameTaken(i: nat, j: nat, segs: seq<Segment>)
    requires i % WINDOW == j % WINDOW && !NoneTaken(segs, i) && !NoneTaken(segs, j)
    ensures FirstTaken(segs, i) == FirstTaken(segs, j)
  {
    hide Taken, Behind;
    SamePlace(i, j, segs);
  }

  lemma {:induction false} TakenNow(s: Segment, u: bytes, t: bytes)
    requires WellFormed(s) && !LooksBare(s) && Taken(2, s)
    requires |u| >= WINDOW && u[0] == 0xff && t == [0xff, MARKER_SOI as byte] + (SegmentBytes(s) + u)
    ensures Collected(Run(INITIAL, t), |s.payload| + 2, s.payload + u)
  {
    hide Run, From, Collected, SegmentBytes, LooksBare, Agrees, MarkerBytes, MarkerAt;
    var t' := FirstSegment(s, u, t);
    TakenFrom(START, t', MarkerAt(2, s), s, u);
  }

  lemma {:induction false} TakenLater(s: Segment, segs: seq<Segment>, u: bytes, t: bytes)
    requires WellFormed(s) && (forall s' <- segs :: WellFormed(s')) && !LooksBare(s) && !Taken(2, s)
    requires !NoneTaken(segs, Behind(2, s))
    requires |u| >= WINDOW && u[0] == 0xff
    requires t == [0xff, MARKER_SOI as byte] + (SegmentBytes(s) + (SegmentsBytes(segs) + u))
    ensures var j := FirstTaken(segs, Behind(2, s));
      Collected(Run(INITIAL, t), |segs[j].payload| + 2, segs[j].payload + (SegmentsBytes(segs[j + 1..]) + u))
  {
    hide Run, From, Collected, SegmentBytes, SegmentsBytes, LooksBare, Agrees, MarkerBytes, NoneTaken, FirstTaken;
    hide MarkerAt, Landing;
    var v := SegmentsBytes(segs) + u;
    StartsWithFill(segs, u);
    var t' := FirstSegment(s, v, t);
    var i';
    t', i' := BodyFrom(START, t', MarkerAt(2, s), s, v);
    SamePlace(i', Behind(2, s), segs);
    SameTaken(i', Behind(2, s), segs);
    FirstTakenFrom(Control(Read, Jpeg, 0), t', i', segs, u);
  }

  lemma {:induction false} ImageFrom(segs: seq<Segment>, fill: nat, hi: byte, lo: byte, after: bytes)
    requires (forall s <- segs :: WellFormed(s)) && segs != []
    ensures var u := Fill(fill) + ([MARKER_APP1 as byte, hi, lo] + after);
      Image(segs, fill, hi, lo, after)
        == [0xff, MARKER_SOI as byte] + (SegmentBytes(segs[0]) + (SegmentsBytes(segs[1..]) + u))
  {
    hide Fill, SegmentBytes;
  }

  /** Whatever comes behind the segments, the first of them that is taken for the EXIF segment is collected. */
  lemma {:induction false} TakenCollected(segs: seq<Segment>, fill: nat, hi: byte, lo: byte, after: bytes)
    requires (forall s <- segs :: WellFormed(s)) && fill > 0 && |after| >= WINDOW
    requires segs != [] && !LooksBare(segs[0]) && !NoneTaken(segs, 2)
    ensures var j := FirstTaken(segs, 2);
      Collected(Run(INITIAL, Image(segs, fill, hi, lo, after)), |segs[j].payload| + 2,
                segs[j].payload + Body(segs[j + 1..], fill, hi, lo, after))
  {
    hide Run, Collected, Fill, SegmentBytes, SegmentsBytes, Image, LooksBare, Taken, Behind;
    var u := Fill(fill) + ([MARKER_APP1 as byte, hi, lo] + after);
    var v := SegmentsBytes(segs[1..]) + u;
    var t := Image(segs, fill, hi, lo, after);
    ImageFrom(segs, fill, hi, lo, after);
    if Taken(2, segs[0]) {
      StartsWithFill(segs[1..], u);
      TakenNow(segs[0], v, t);
    } else {
      TakenLater(segs[0], segs[1..], u, t);
      var j := FirstTaken(segs[1..], Behind(2, segs[0]));
      assert segs[1..][j] == segs[j + 1] && segs[1..][j + 1..] == segs[j + 2..];
    }
  }

  /**
   A stream whose first segment looks like bare data: the marker becomes part of the length, and the segment is
   collected.
   */
  lemma {:induction false} BareCollected(segs: seq<Segment>, fill: nat, hi: byte, lo: byte, after: bytes)
    requires (forall s <- segs :: WellFormed(s)) && fill > 0 && |after| >= WINDOW
    requires segs != [] && LooksBare(segs[0])
    ensures var x := Fill(MarkerAt(2, segs[0])) + MarkerBytes(segs[0]) + Body(segs[1..], fill, hi, lo, after);
      Collected(Run(INITIAL, Image(segs, fill, hi, lo, after)), 0x100 * (x[0] as int) + x[1], x[2..])
  {
    hide Run, From, Collected, Fill, SegmentBytes, LooksBare, Digit;
    var u := Fill(fill) + ([MARKER_APP1 as byte, hi, lo] + after);
    var v := SegmentsBytes(segs[1..]) + u;
    var t := Image(segs, fill, hi, lo, after);
    assert t == [0xff, MARKER_SOI as byte] + (SegmentBytes(segs[0]) + v);
    StartsWithFill(segs[1..], u);
    var t' := FirstSegment(segs[0], v, t);
    assert t' == Fill(MarkerAt(2, segs[0])) + MarkerBytes(segs[0]) + v;
    assert t'[0..] == [t'[0], t'[1]] + t'[2..];
    var t2, i' := LengthFrom(Exif, t', 0, t'[0], t'[1], t'[2..]);
    FoundFrom(0x100 * (t'[0] as int) + t'[1], t2, i');
  }

  /** The EXIF segment is what is collected. */
  predicate Finds(segs: seq<Segment>, fill: nat, hi: byte, lo: byte, after: bytes)
    requires forall s <- segs :: WellFormed(s)
  {
    Collected(Run(INITIAL, Image(segs, fill, hi, lo, after)), 0x100 * (hi as int) + lo, after)
  }

  /**
   Collecting from further ahead in the stream is collecting something else, if the stream ends within the segment.
   */
  lemma {:induction false} NotTheSame(r: (Snapshot, bool), size: nat, size': nat, x: bytes, after: bytes)
    requires Collected(r, size', x) && |x| > |after| && |after| < size
    ensures !Collected(r, size, after)
  {
  }

  lemma {:induction false} NotFound(segs: seq<Segment>, fill: nat, hi: byte, lo: byte, after: bytes)
    requires (forall s <- segs :: WellFormed(s)) && fill > 0 && !PassedOver(segs)
    requires WINDOW <= |after| < 0x100 * (hi as int) + lo
    ensures !Finds(segs, fill, hi, lo, after)
  {
    hide Run, Collected, Image, NoneTaken, SegmentsBytes, Digit, Fill, LooksBare;
    var r, size := Run(INITIAL, Image(segs, fill, hi, lo, after)), 0x100 * (hi as int) + lo;
    if LooksBare(segs[0]) {
      BareCollected(segs, fill, hi, lo, after);
      var x := Fill(MarkerAt(2, segs[0])) + MarkerBytes(segs[0]) + Body(segs[1..], fill, hi, lo, after);
      NotTheSame(r, size, 0x100 * (x[0] as int) + x[1], x[2..], after);
    } else {
      TakenCollected(segs, fill, hi, lo, after);
      var j := FirstTaken(segs, 2);
      NotTheSame(r, size, |segs[j].payload| + 2, segs[j].payload + Body(segs[j + 1..], fill, hi, lo, after), after);
    }
  }

  /**
   The scan of an image, exactly: the EXIF segment is collected, whatever is in it, if and only if the segments before
   it are passed over, that is, none of those with an APP1 marker agrees with the header in the bytes that its window
   still holds, and the first one does not look like bare data.
   */
  lemma {:induction false} JpegScan(segs: seq<Segment>, fill: nat, hi: byte, lo: byte)
    requires (forall s <- segs :: WellFormed(s)) && fill > 0 && 0x100 * (hi as int) + lo > WINDOW
    ensures PassedOver(segs) <==>
      forall after :: LiesAt(after, 0, EXIF_HEADER) && |after| >= WINDOW ==> Finds(segs, fill, hi, lo, after)
  {
    hide PassedOver, Run, Collected, Image;
    if PassedOver(segs) {
      forall after | LiesAt(after, 0, EXIF_HEADER) && |after| >= WINDOW ensures Finds(segs, fill, hi, lo, after) {
        ExifIsFound(segs, fill, hi, lo, after);
      }
    } else {
      var after := EXIF_HEADER + Zeros(6);
      assert LiesAt(after, 0, EXIF_HEADER) && |after| >= WINDOW;
      NotFound(segs, fill, hi, lo, after);
    }
  }

  // ---- Other streams ----

  /** A stream of bare EXIF data behind two length bytes is collected as it is. */
  lemma {:induction false} BareStream(hi: byte, lo: byte, after: bytes)
    requires LiesAt(after, 0, EXIF_HEADER) && |after| >= WINDOW
    ensures Collected(Run(INITIAL, [hi, lo] + after), 0x100 * (hi as int) + lo, after)
  {
    hide Run, From, Collected;
    var t := [hi, lo] + after;
    var w := t[..WINDOW];
    LiesInBack(t, 2, 0, EXIF_HEADER);
    LiesInFront(t, WINDOW, 2, EXIF_HEADER);
    assert t[2..] == after;
    ByteOf(w, 2, EXIF_HEADER, 0);
    ByteOf(w, 0, FUJIFILM, 2);
    assert Detect(START, w) == Control(SizeByte08, Exif, 0) by { hide LiesAt; }
    RunDetects(START, Control(SizeByte08, Exif, 0), t);
    assert t[0..] == [hi, lo] + after;
    var t', i' := LengthFrom(Exif, t, 0, hi, lo, after);
    FoundFrom(0x100 * (hi as int) + lo, t', i');
  }

  /**
   A byte that is no marker, where one is due behind segments that are passed over, ends it all: the loader starts
   afresh.
   */
  lemma {:induction false} CorruptEnds(s: Segment, segs: seq<Segment>, fill: nat, m: byte, rest: bytes)
    requires WellFormed(s) && (forall s' <- segs :: WellFormed(s')) && PassedOver([s] + segs) && fill > 0
    requires |rest| >= WINDOW
    requires !PassedOverMarker(m) && m != 0xe1 && m != 0xff && m != 0xd8
    ensures Run(INITIAL, [0xff, 0xd8] + (SegmentBytes(s) + (SegmentsBytes(segs) + (Fill(fill) + ([m] + rest)))))
      == (INITIAL, false)
  {
    hide From, Run, SegmentsBytes, MarkerBytes, SegmentBytes, LooksBare, Agrees, Fill, Sound;
    var u := SegmentsBytes(segs) + (Fill(fill) + ([m] + rest));
    StartsWithFill(segs, Fill(fill) + ([m] + rest));
    assert ([s] + segs)[1..] == segs;
    assert Sound(START) && Sound(Control(Read, Jpeg, 0)) by { ReadSound(); }
    var t' := FirstSegment(s, u, [0xff, 0xd8] + (SegmentBytes(s) + u));
    var i';
    t', i' := BodyFrom(START, t', MarkerAt(2, s), s, u);
    SamePlace(i', Behind(2, s), segs);
    CorruptFrom(Control(Read, Jpeg, 0), t', i', segs, fill, m, rest);
  }

  lemma {:induction false} CorruptFrom(c: Control, t: bytes, i: nat, segs: seq<Segment>, fill: nat, m: byte,
                                       rest: bytes)
    requires Sound(c) && Known(c) && c.phase.Read? && i <= WINDOW <= |t|
    requires (forall s <- segs :: WellFormed(s)) && NoneTaken(segs, i) && fill > 0 && |rest| >= WINDOW
    requires t[i..] == SegmentsBytes(segs) + (Fill(fill) + ([m] + rest))
    requires !PassedOverMarker(m) && m != 0xe1 && m != 0xff && m != 0xd8
    ensures From(c, t, i) == (INITIAL, false)
  {
    hide From, SegmentsBytes, NoneTaken;
    var u := Fill(fill) + ([m] + rest);
    var c', t', i' := SegmentsFrom(c, t, i, segs, u);
    t', i' := FillFrom(c', t', i', fill, [m] + rest);
    t', i' := Roll(c', t', i');
    assert t'[i'] == t'[i'..][0] == m;
    CorruptByte(c', t', i');
  }

  lemma {:induction false} CorruptByte(c: Control, t: bytes, i: nat)
    requires Sound(c) && !c.format.FujiRaw? && c.phase.Read? && i < WINDOW <= |t|
    requires !PassedOverMarker(t[i]) && t[i] != 0xe1 && t[i] != 0xff && t[i] != 0xd8
    ensures From(c, t, i) == (INITIAL, false)
  {
    hide Run, LooksLikeExif;
  }

  // ---- Where the look-ahead falls short ----

  /**
   An APP1 segment is told from an EXIF segment by the bytes that are still in the window: the
   decision is right for every input exactly when the marker lies in the first four bytes of the window.
   */
  lemma {:induction false} DecisionIsRight(i: nat)
    requires i < WINDOW
    ensures i <= 3 <==> forall t: bytes | |t| >= WINDOW + 9 :: LooksLikeExif(t[..WINDOW], i) <==>
      LiesAt(t, i + 3, EXIF_HEADER)
  {
    if i > 3 {
      var t: bytes := seq(WINDOW + 9, j requires 0 <= j < WINDOW + 9 => if i + 3 <= j < WINDOW
        then EXIF_HEADER[j - i - 3] else 1);
      assert t[i + 3 + 5] != EXIF_HEADER[5];
      assert LooksLikeExif(t[..WINDOW], i) && !LiesAt(t, i + 3, EXIF_HEADER);
    } else {
      forall t: bytes | |t| >= WINDOW + 9 ensures LooksLikeExif(t[..WINDOW], i) <==> LiesAt(t, i + 3, EXIF_HEADER) {
        if LooksLikeExif(t[..WINDOW], i) {
          forall k | 0 <= k < 6 ensures t[i + 3 + k] == EXIF_HEADER[k] {
            assert t[..WINDOW][i + 3 + k] == t[i + 3 + k];
          }
        }
      }
    }
  }

  function BareSegment(y: bytes): Segment { Segment(10, 0xe0, [0x78, 0x69, 0x66, 0, 0] + y) }

  lemma {:induction false} BareShape(y: bytes)
    requires |y| == 62
    ensures MarkerBytes(BareSegment(y)) == [0xe0, 0] + (EXIF_HEADER + y) && MarkerAt(2, BareSegment(y)) == 0
    ensures WellFormed(BareSegment(y))
  {
    assert ShortDigits(69, Motorola) == [0, 0x45];
    assert [0xe0] + [0, 0x45] + ([0x78, 0x69, 0x66, 0, 0] + y) == [0xe0, 0] + (EXIF_HEADER + y);
  }

  lemma {:induction false} LooksBareThen(s: Segment, y: bytes)
    requires MarkerBytes(s) == [0xe0, 0] + (EXIF_HEADER + y) && MarkerAt(2, s) == 0
    ensures LooksBare(s)
  {
    hide MarkerBytes, MarkerAt;
  }

  /** An APP0 segment behind ten fill bytes that makes the stream look like bare EXIF data of 0xe000 bytes. */
  lemma {:induction false} BareExample(y: bytes, fill: nat, hi: byte, lo: byte, after: bytes)
    requires |y| == 62 && fill > 0 && |after| >= WINDOW
    ensures WellFormed(BareSegment(y)) && LooksBare(BareSegment(y))
    ensures Collected(Run(INITIAL, Image([BareSegment(y)], fill, hi, lo, after)), 0xe000,
                      EXIF_HEADER + y + Body([], fill, hi, lo, after))
  {
    hide Run, Collected, Image, Body, BareSegment, MarkerBytes, LooksBare, WellFormed, MarkerAt;
    var s := BareSegment(y);
    BareShape(y);
    LooksBareThen(s, y);
    BareCollected([s], fill, hi, lo, after);
    var u := Body([s][1..], fill, hi, lo, after);
    assert [s][1..] == [];
    assert Fill(0) + ([0xe0, 0] + (EXIF_HEADER + y)) + u == [0xe0, 0] + (EXIF_HEADER + y + u);
  }

  /** So a short segment before an APP1 segment of any other kind, XMP say, makes the loader collect that. */
  lemma {:induction false} OtherApp1Collected(a: byte, b: byte, c: byte, hi: byte, lo: byte, after: bytes)
    requires |after| >= WINDOW
    ensures Collected(Run(INITIAL, [0xff, 0xd8, 0xff, 0xe0, 0, 5, a, b, c, 0xff, 0xe1, hi, lo] + after),
                      0x100 * (hi as int) + lo, after)
  {
    hide From, Run, Collected, Sound, MarkerBytes, Fill;
    var t: bytes := [0xff, 0xd8, 0xff, 0xe0, 0, 5, a, b, c, 0xff, MARKER_APP1 as byte, hi, lo] + after;
    var app1 := [MARKER_APP1 as byte, hi, lo] + after;
    var s := Segment(1, 0xe0, [a, b, c]);
    ShortSegment(a, b, c);
    assert t[3..] == MarkerBytes(s) + (Fill(1) + app1);
    assert Sound(START) && Sound(Control(Read, Jpeg, 0)) by { ReadSound(); }
    StartFrom(t, 3, t[3..]);
    var t', i' := BodyFrom(START, t, 3, s, Fill(1) + app1);
    t', i' := FillFrom(Control(Read, Jpeg, 0), t', i', 1, app1);
    App1From(Control(Read, Jpeg, 0), t', i', hi, lo, after);
  }

  lemma {:induction false} ReadSound()
    ensures Sound(START) && Sound(Control(Read, Jpeg, 0))
  {
  }

  lemma {:induction false} ShortSegment(a: byte, b: byte, c: byte)
    ensures MarkerBytes(Segment(1, 0xe0, [a, b, c])) == [0xe0, 0, 5, a, b, c]
    ensures Fill(1) == [0xff]
  {
    assert ShortDigits(5, Motorola) == [0, 5];
    assert [0xe0] + [0, 5] + [a, b, c] == [0xe0, 0, 5, a, b, c];
  }
}
