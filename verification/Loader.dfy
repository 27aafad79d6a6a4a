/**
 The streaming loader: a seven-state machine that scans its input twelve bytes at a time, skips
 what it does not want and collects the EXIF data.
 */
module Loader {
  import opened Bytes

  datatype Phase = Read | SizeByte24 | SizeByte16 | SizeByte08 | SizeByte00 | SkipBytes | ExifFound

  datatype Format = Unknown | Exif | Jpeg | FujiRaw

  /** The part of the state that scanning a window changes. */
  datatype Control = Control(phase: Phase, format: Format, size: nat)

  /** A loader between two calls: the bytes waiting in the window and those collected so far. */
  datatype Snapshot = Snapshot(control: Control, window: bytes, got: bytes)

  const WINDOW := 12

  const MARKER_SOI := 0xd8
  const MARKER_APP1 := 0xe1

  /** The markers whose segments are skipped. */
  predicate Skippable(m: byte)
  {
    || m == 0xc0 || m == 0xc4 || m == 0xdb || m == 0xe0 || m == 0xe2 || m == 0xe3 || m == 0xe4 || m == 0xe5
    || m == 0xea || m == 0xeb || m == 0xed || m == 0xee || m == 0xfe
  }

  const START := Control(Read, Unknown, 0)
  const INITIAL := Snapshot(START, [], [])

  // ---- One window ----

  /** Checking a full window against the known formats. */
  function Detect(c: Control, w: bytes): Control
    requires |w| == WINDOW
  {
    if !c.format.Unknown? then c
    else if LiesAt(w, 0, FUJIFILM) then Control(SkipBytes, FujiRaw, 84)
    else if LiesAt(w, 2, EXIF_HEADER) then Control(SizeByte08, Exif, c.size)
    else c
  }

  /** Whether an APP1 marker at `i` seems to start EXIF data: only the bytes still in the window are compared. */
  predicate LooksLikeExif(w: bytes, i: nat)
    requires |w| == WINDOW && i < WINDOW
  {
    forall k :: 0 <= k < 6 && i + 3 + k < WINDOW ==> w[i + 3 + k] == EXIF_HEADER[k]
  }

  /** What a complete size means. */
  function Sized(format: Format, size: nat): Control
  {
    match format
    case Jpeg => Control(SkipBytes, Jpeg, if size < 2 then 0 else size - 2)
    case FujiRaw => Control(SkipBytes, Exif, if size < 86 then 0 else size - 86)
    case Exif => Control(ExifFound, Exif, size)
    case Unknown => Control(SizeByte00, Unknown, size)
  }

  /** A byte met while looking for a marker; nothing when it cannot be part of the format. */
  function ReadByte(c: Control, w: bytes, i: nat): (r: Option<Control>)
    requires |w| == WINDOW && i < WINDOW
  {
    var m := w[i];
    if m == MARKER_APP1 then Some(Control(SizeByte08, if LooksLikeExif(w, i) then Exif else Jpeg, 0))
    else if Skippable(m) then Some(Control(SizeByte08, Jpeg, 0))
    else if m == 0xff || m == MARKER_SOI then Some(c.(phase := Read))
    else None
  }

  /** One byte of a window; the `|=` of the size bytes is a sum because the bits below are clear. */
  function ScanByte(c: Control, w: bytes, i: nat): (r: Option<Control>)
    requires |w| == WINDOW && i < WINDOW && !c.phase.ExifFound?
  {
    var x := w[i] as int;
    match c.phase
    case SkipBytes =>
      if c.size == 0 then ReadByte(c, w, i)
      else if c.size == 1 then Some(Control(Read, c.format, 0))
      else Some(c.(size := c.size - 1))
    case SizeByte24 => Some(Control(SizeByte16, c.format, c.size + 0x100_0000 * x))
    case SizeByte16 => Some(Control(SizeByte08, c.format, c.size + 0x1_0000 * x))
    case SizeByte08 => Some(Control(SizeByte00, c.format, c.size + 0x100 * x))
    case SizeByte00 => Some(Sized(c.format, c.size + x))
    case Read => ReadByte(c, w, i)
  }

  /** Outcome of a window: at `at` the EXIF data starts, or the window is used up (`at` is its end). */
  datatype Scanned = Corrupt | Stopped(control: Control, at: nat)

  function Scan(c: Control, w: bytes, i: nat): (r: Scanned)
    requires |w| == WINDOW && i <= WINDOW
    ensures r.Stopped? ==> i <= r.at <= WINDOW && (r.at < WINDOW ==> r.control.phase.ExifFound?)
    decreases WINDOW - i
  {
    if i == WINDOW || c.phase.ExifFound? then Stopped(c, i)
    else
      match ScanByte(c, w, i)
      case None => Corrupt
      case Some(c') => Scan(c', w, i + 1)
  }

  // ---- One byte at a time ----

  /** Where a finished skip continues. */
  function Resume(format: Format): Control
  {
    Control(if format.FujiRaw? then SizeByte24 else Read, format, 0)
  }

  /** exif_loader_copy: collects what still fits and tells whether more is wanted. */
  function Copy(s: Snapshot, x: bytes): (r: (Snapshot, bool))
  {
    if |s.got| >= s.control.size then (s, false)
    else
      var n := if |x| < s.control.size - |s.got| then |x| else s.control.size - |s.got|;
      (s.(got := s.got + x[..n]), |s.got| + n < s.control.size)
  }

  /** The state after a window has been scanned, and whether more is wanted. */
  function AfterScan(r: Scanned, w: bytes): (Snapshot, bool)
    requires |w| == WINDOW && (r.Stopped? ==> r.at <= WINDOW)
  {
    match r
    case Corrupt => (INITIAL, false)
    case Stopped(c, at) =>
      if at < WINDOW then Copy(Snapshot(c, w, []), w[at..])
      else if c.phase.ExifFound? then (Snapshot(c, [], []), c.size > 0)
      else if c.phase.SkipBytes? && c.size == 0 then (Snapshot(Resume(c.format), [], []), true)
      else (Snapshot(c, [], []), true)
  }

  /** The loader fed a single byte. */
  function Feed(s: Snapshot, x: byte): (r: (Snapshot, bool))
    requires s.control.phase.ExifFound? || |s.window| < WINDOW
  {
    var c := s.control;
    if c.phase.ExifFound? then Copy(s, [x])
    else if c.phase.SkipBytes? then
      if c.size > 1 then (s.(control := c.(size := c.size - 1)), true)
      else (Snapshot(Resume(c.format), [], s.got), true)
    else
      var w := s.window + [x];
      if |w| < WINDOW then (s.(window := w), true) else AfterScan(Scan(Detect(c, w), w, 0), w)
  }

  /** Whether a call that brings no byte asks for more. */
  predicate Wanting(s: Snapshot)
  {
    s.control.phase.ExifFound? ==> |s.got| < s.control.size
  }

  // ---- Reachable states ----

  /** What holds of the control at every byte of a window. */
  predicate Sound(c: Control)
  {
    && c.size < U32
    && (c.format.Unknown? ==> c.phase.Read?)
    && (c.phase.Read? ==> c.size == 0 && !c.format.FujiRaw?)
    && (c.phase.SizeByte24? ==> c.size == 0 && c.format.FujiRaw?)
    && (c.phase.SizeByte16? ==> c.size % 0x100_0000 == 0 && c.format.FujiRaw?)
    && (c.phase.SizeByte08? ==> c.size % 0x1_0000 == 0 && (!c.format.FujiRaw? ==> c.size == 0))
    && (c.phase.SizeByte00? ==> c.size % 0x100 == 0 && (!c.format.FujiRaw? ==> c.size <= 0xff00))
    && (c.phase.ExifFound? ==> c.size <= 0xffff && c.format.Exif?)
  }

  /** What holds of a loader between two calls. */
  predicate Reachable(s: Snapshot)
  {
    && Sound(s.control)
    && |s.window| <= WINDOW
    && (s.control.phase.ExifFound? ==> |s.got| <= s.control.size)
    && (!s.control.phase.ExifFound? ==> |s.window| < WINDOW && s.got == [])
    && (s.control.phase.SkipBytes? ==> s.window == [] && s.control.size > 0)
  }

  lemma {:induction false} SizeBytes(size: nat, x: byte)
    ensures 0x100_0000 * (x as int) % 0x100_0000 == 0 && 0x100_0000 * (x as int) < U32
    ensures size % 0x100_0000 == 0 && size < U32 ==>
      (size + 0x1_0000 * (x as int)) % 0x1_0000 == 0 && size + 0x1_0000 * (x as int) < U32
    ensures size % 0x1_0000 == 0 && size < U32 ==>
      (size + 0x100 * (x as int)) % 0x100 == 0 && size + 0x100 * (x as int) < U32
    ensures size % 0x100 == 0 && size < U32 ==> size + x < U32
  {
    DivModUnique(0x100_0000 * (x as int), 0x100_0000, x as int, 0);
    if size % 0x100_0000 == 0 && size < U32 {
      var q := size / 0x100_0000;
      DivModUnique(size + 0x1_0000 * (x as int), 0x1_0000, 0x100 * q + x as int, 0);
    }
    if size % 0x1_0000 == 0 && size < U32 {
      var q := size / 0x1_0000;
      DivModUnique(size + 0x100 * (x as int), 0x100, 0x100 * q + x as int, 0);
    }
  }

  lemma {:induction false} ReadByteSound(c: Control, w: bytes, i: nat)
    requires |w| == WINDOW && i < WINDOW && !c.format.FujiRaw? && c.size == 0
    ensures ReadByte(c, w, i).Some? ==> Sound(ReadByte(c, w, i).value) && !ReadByte(c, w, i).value.format.FujiRaw?
  {
  }

  lemma {:induction false} ScanByteSound(c: Control, w: bytes, i: nat)
    requires |w| == WINDOW && i < WINDOW && Sound(c) && !c.phase.ExifFound?
    requires c.format.FujiRaw? && c.phase.SkipBytes? ==> c.size == 84 - i
    ensures ScanByte(c, w, i).Some? ==>
      var c' := ScanByte(c, w, i).value;
      Sound(c') && (c'.format.FujiRaw? && c'.phase.SkipBytes? ==> c'.size == 84 - (i + 1))
  {
    if c.phase.Read? || (c.phase.SkipBytes? && c.size == 0) {
      ReadByteSound(c, w, i);
    } else {
      SizeBytes(c.size, w[i]);
    }
  }

  lemma {:induction false} ScanSound(c: Control, w: bytes, i: nat)
    requires |w| == WINDOW && i <= WINDOW && Sound(c)
    requires c.format.FujiRaw? && c.phase.SkipBytes? ==> c.size == 84 - i
    ensures Scan(c, w, i).Stopped? ==> Sound(Scan(c, w, i).control)
    decreases WINDOW - i
  {
    if i < WINDOW && !c.phase.ExifFound? {
      ScanByteSound(c, w, i);
      var r := ScanByte(c, w, i);
      if r.Some? {
        ScanSound(r.value, w, i + 1);
      }
    }
  }

  /** Every byte keeps a loader in a reachable state; in particular at most 65535 bytes are ever collected. */
  lemma {:induction false} FeedReachable(s: Snapshot, x: byte)
    requires Reachable(s)
    ensures Reachable(Feed(s, x).0) && (Feed(s, x).1 ==> Wanting(Feed(s, x).0))
  {
    var c := s.control;
    if !c.phase.ExifFound? && !c.phase.SkipBytes? && |s.window| + 1 == WINDOW {
      var w := s.window + [x];
      ScanSound(Detect(c, w), w, 0);
    }
  }

  // ---- Runs ----

  /** A loader fed byte after byte until it wants no more. */
  function Run(s: Snapshot, data: bytes): (r: (Snapshot, bool))
    requires Reachable(s)
    ensures Reachable(r.0)
    decreases |data|
  {
    if data == [] then (s, Wanting(s))
    else
      FeedReachable(s, data[0]);
      var (s', more) := Feed(s, data[0]);
      if more then Run(s', data[1..]) else (s', false)
  }

  /** The state left by one write is where the next one takes over. */
  lemma {:induction false} RunConcat(s: Snapshot, a: bytes, b: bytes)
    requires Reachable(s)
    ensures Run(s, a).1 ==> Run(s, a + b) == Run(Run(s, a).0, b)
    ensures !Run(s, a).1 ==> Run(s, a + b) == Run(s, a)
    decreases |a|
  {
    if a == [] {
      assert a + b == b;
    } else {
      assert (a + b)[0] == a[0] && (a + b)[1..] == a[1..] + b;
      FeedReachable(s, a[0]);
      var (s', more) := Feed(s, a[0]);
      if more {
        RunConcat(s', a[1..], b);
      }
    }
  }

  /** The bytes of a stream cut into chunks. */
  function Joined(chunks: seq<bytes>): bytes
  {
    if chunks == [] then [] else chunks[0] + Joined(chunks[1..])
  }

  /** A caller that writes one chunk after the other until the loader wants no more. */
  function RunChunks(s: Snapshot, chunks: seq<bytes>): (Snapshot, bool)
    requires Reachable(s)
    decreases |chunks|
  {
    if chunks == [] then (s, Wanting(s))
    else
      var (s', more) := Run(s, chunks[0]);
      if more then RunChunks(s', chunks[1..]) else (s', false)
  }

  /** Chunk independence: however a stream is cut, empty chunks included, the loader ends in the same state. */
  lemma {:induction false} ChunkIndependence(s: Snapshot, chunks: seq<bytes>)
    requires Reachable(s)
    ensures RunChunks(s, chunks) == Run(s, Joined(chunks))
    decreases |chunks|
  {
    if chunks != [] {
      RunConcat(s, chunks[0], Joined(chunks[1..]));
      var (s', more) := Run(s, chunks[0]);
      if more {
        ChunkIndependence(s', chunks[1..]);
      }
    }
  }

  // ---- Many bytes at once ----

  /** A skip that has nothing left to skip is over as soon as the next input is looked at. */
  function Settle(s: Snapshot): Snapshot
  {
    if s.control.phase.SkipBytes? && s.control.size == 0 then Snapshot(Resume(s.control.format), [], []) else s
  }

  lemma {:induction false} RunFound(s: Snapshot, x: bytes)
    requires Reachable(s) && s.control.phase.ExifFound?
    ensures Run(s, x) == Copy(s, x)
    decreases |x|
  {
    if x == [] {
      assert s.got + [] == s.got;
    } else {
      var (s', more) := Copy(s, [x[0]]);
      assert [x[0]][..1] == [x[0]] == x[..1];
      if more {
        RunFound(s', x[1..]);
        var n := if |x| < s.control.size - |s.got| then |x| else s.control.size - |s.got|;
        assert s.got + [x[0]] + x[1..][..n - 1] == s.got + x[..n];
      }
    }
  }

  lemma {:induction false} RunSkip(s: Snapshot, x: bytes)
    requires Reachable(s) && s.control.phase.SkipBytes? && |x| < s.control.size
    ensures Run(s, x) == (s.(control := s.control.(size := s.control.size - |x|)), true)
    decreases |x|
  {
    if x != [] {
      RunSkip(Feed(s, x[0]).0, x[1..]);
    }
  }

  lemma {:induction false} RunSkipped(s: Snapshot, x: bytes)
    requires Reachable(s) && s.control.phase.SkipBytes? && s.control.size <= |x|
    ensures Reachable(Snapshot(Resume(s.control.format), [], []))
    ensures Run(s, x) == Run(Snapshot(Resume(s.control.format), [], []), x[s.control.size..])
    decreases |x|
  {
    if s.control.size > 1 {
      RunSkipped(Feed(s, x[0]).0, x[1..]);
      assert x[1..][s.control.size - 1..] == x[s.control.size..];
    }
  }

  lemma {:induction false} RunFill(s: Snapshot, x: bytes)
    requires Reachable(s) && !s.control.phase.ExifFound? && !s.control.phase.SkipBytes?
    requires |s.window| + |x| < WINDOW
    ensures Run(s, x) == (s.(window := s.window + x), true)
    decreases |x|
  {
    if x == [] {
      assert s.window + x == s.window;
    } else {
      RunFill(Feed(s, x[0]).0, x[1..]);
      assert s.window + [x[0]] + x[1..] == s.window + x;
    }
  }

  lemma {:induction false} RunStep(s: Snapshot, x: byte, rest: bytes)
    requires Reachable(s)
    ensures Reachable(Feed(s, x).0)
    ensures Run(s, [x] + rest) == if Feed(s, x).1 then Run(Feed(s, x).0, rest) else (Feed(s, x).0, false)
  {
    FeedReachable(s, x);
    assert ([x] + rest)[1..] == rest;
  }

  lemma {:induction false} FeedFill(s: Snapshot, w: bytes, r: (Snapshot, bool))
    requires Reachable(s) && !s.control.phase.ExifFound? && !s.control.phase.SkipBytes?
    requires |w| == WINDOW && |s.window| < WINDOW && w[..|s.window|] == s.window
    requires r == AfterScan(Scan(Detect(s.control, w), w, 0), w)
    ensures Feed(s, w[|s.window|]) == if |s.window| + 1 < WINDOW then (s.(window := w[..|s.window| + 1]), true) else r
  {
    var k := |s.window|;
    assert w[..k + 1] == s.window + [w[k]];
    if k + 1 == WINDOW {
      assert w[..k + 1] == w;
    }
  }

  /** A run that fills the window goes on after scanning it. */
  lemma {:induction false} RunWindow(s: Snapshot, w: bytes, rest: bytes, r: (Snapshot, bool))
    requires Reachable(s) && !s.control.phase.ExifFound? && !s.control.phase.SkipBytes?
    requires |w| == WINDOW && |s.window| < WINDOW && w[..|s.window|] == s.window
    requires r == AfterScan(Scan(Detect(s.control, w), w, 0), w)
    ensures Reachable(r.0)
    ensures Run(s, w[|s.window|..] + rest) == if r.1 then Run(r.0, rest) else (r.0, false)
    decreases WINDOW - |s.window|
  {
    hide *;
    var k := |s.window|;
    FeedFill(s, w, r);
    assert w[k..] + rest == [w[k]] + (w[k + 1..] + rest);
    RunStep(s, w[k], w[k + 1..] + rest);
    if k + 1 < WINDOW {
      RunWindow(s.(window := w[..k + 1]), w, rest, r);
    } else {
      assert w[k + 1..] + rest == rest;
    }
  }

  lemma {:induction false} SettledAlready(s: Snapshot)
    requires Reachable(s)
    ensures Settle(s) == s
  {
  }

  /** A window that is used up leaves a loader that just reads on. */
  lemma {:induction false} RunOn(c: Control, w: bytes, rest: bytes, r: (Snapshot, bool))
    requires |w| == WINDOW && r == AfterScan(Stopped(c, WINDOW), w) && Reachable(r.0)
    ensures r.0 == Settle(Snapshot(c, [], []))
    ensures Run(r.0, rest) == if r.1 then Run(r.0, rest) else (r.0, false)
  {
    if c.phase.ExifFound? {
      RunFound(r.0, rest);
    }
  }
}
