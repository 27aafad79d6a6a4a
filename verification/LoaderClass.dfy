/** The loader as the object the program keeps, updated in place. */
module LoaderObject {
  import opened Bytes
  import opened Loader

  class ExifLoader {
    var phase: Phase
    var format: Format
    var size: nat
    /** The window; its first `bLen` bytes are in use. */
    const b: array<byte>
    var bLen: nat
    /** The collected data, allocated when the first byte arrives. */
    var buf: array?<byte>
    var bytesRead: nat

    ghost predicate Valid()
      reads this, b, buf
    {
      && WellFormed()
      && Reachable(Value())
      && (phase.ExifFound? && size > 0 ==> buf != null)
    }

    /** What also holds in the middle of a write. */
    ghost predicate WellFormed()
      reads this, b, buf
    {
      && b.Length == WINDOW && bLen <= WINDOW
      && (buf == null ==> bytesRead == 0)
      && (buf != null ==> phase.ExifFound? && buf != b && buf.Length == size && bytesRead <= size)
    }

    function TheControl(): Control
      reads this
    {
      Control(phase, format, size)
    }

    function Got(): bytes
      requires WellFormed()
      reads this, b, buf
    {
      if buf == null then [] else buf[..bytesRead]
    }

    ghost function Value(): Snapshot
      requires WellFormed()
      reads this, b, buf
    {
      Snapshot(TheControl(), b[..bLen], Got())
    }

    constructor ()
      ensures Valid() && Value() == INITIAL && fresh(b) && buf == null
    {
      b := new byte[WINDOW];
      bLen := 0;
      buf := null;
      phase, format, size, bytesRead := Read, Unknown, 0, 0;
      new;
    }

    method Reset()
      requires WellFormed()
      modifies this
      ensures Valid() && Value() == INITIAL && buf == null
    {
      buf := null;
      size, bytesRead, phase, bLen, format := 0, 0, Read, 0, Unknown;
    }

    /** exif_loader_copy. */
    method CopyData(x: bytes) returns (more: bool)
      requires WellFormed() && phase.ExifFound?
      modifies this`buf, this`bytesRead, buf
      ensures WellFormed() && (bytesRead < size ==> buf != null) && (buf != old(buf) ==> fresh(buf))
      ensures b[..] == old(b[..])
      ensures (Value(), more) == Copy(old(Value()), x)
    {
      if bytesRead >= size {
        return false;
      }
      if buf == null {
        buf := new byte[size];
      }
      ghost var got := buf[..bytesRead];
      var n := if |x| < size - bytesRead then |x| else size - bytesRead;
      forall k | 0 <= k < n {
        buf[bytesRead + k] := x[k];
      }
      bytesRead := bytesRead + n;
      assert buf[..bytesRead] == got + x[..n];
      more := bytesRead < size;
    }

    /** A complete size, dealt with by what it is the size of. */
    method UseSize()
      requires phase.SizeByte00?
      modifies this`phase, this`format, this`size
      ensures TheControl() == Sized(old(format), old(size))
    {
      match format {
        case Jpeg =>
          phase := SkipBytes;
          size := if size < 2 then 0 else size - 2;
        case FujiRaw =>
          format := Exif;
          phase := SkipBytes;
          size := if size < 86 then 0 else size - 86;
        case Exif =>
          phase := ExifFound;
        case Unknown =>
      }
    }

    /** A byte met while looking for a marker. */
    method ReadMarker(w: bytes, i: nat) returns (ok: bool)
      requires |w| == WINDOW && i < WINDOW && phase.Read?
      modifies this`phase, this`format, this`size
      ensures ok ==> ReadByte(old(TheControl()), w, i) == Some(TheControl())
      ensures !ok ==> ReadByte(old(TheControl()), w, i) == None
    {
      if w[i] == MARKER_APP1 {
        format := if LooksLikeExif(w, i) then Exif else Jpeg;
        size := 0;
        phase := SizeByte08;
      } else if Skippable(w[i]) {
        format := Jpeg;
        size := 0;
        phase := SizeByte08;
      } else if w[i] != 0xff && w[i] != MARKER_SOI {
        return false;
      }
      ok := true;
    }

    /** A byte of the window that neither ends a skip by surprise nor lies past the start of the EXIF data. */
    method ScanOne(w: bytes, i: nat) returns (ok: bool)
      requires |w| == WINDOW && i < WINDOW && !phase.ExifFound? && (phase.SkipBytes? ==> size > 0)
      modifies this`phase, this`format, this`size
      ensures ok ==> ScanByte(old(TheControl()), w, i) == Some(TheControl())
      ensures !ok ==> ScanByte(old(TheControl()), w, i) == None
    {
      ok := true;
      match phase {
        case SkipBytes =>
          if size == 1 {
            size := 0;
            phase := Read;
          } else {
            size := size - 1;
          }
        case SizeByte24 =>
          size := size + 0x100_0000 * (w[i] as int);
          phase := SizeByte16;
        case SizeByte16 =>
          size := size + 0x1_0000 * (w[i] as int);
          phase := SizeByte08;
        case SizeByte08 =>
          size := size + 0x100 * (w[i] as int);
          phase := SizeByte00;
        case SizeByte00 =>
          size := size + w[i];
          UseSize();
        case Read =>
          ok := ReadMarker(w, i);
      }
    }

    /** The loop over a full window; it stops where the EXIF data starts. */
    method ScanWindow(w: bytes) returns (at: nat, ok: bool)
      requires |w| == WINDOW
      modifies this`phase, this`format, this`size
      ensures ok ==> Scan(old(TheControl()), w, 0) == Stopped(TheControl(), at)
      ensures !ok ==> Scan(old(TheControl()), w, 0) == Corrupt
    {
      at := 0;
      while at < WINDOW && !phase.ExifFound?
        invariant at <= WINDOW
        invariant Scan(old(TheControl()), w, 0) == Scan(TheControl(), w, at)
        decreases WINDOW - at, if phase.SkipBytes? then 1 else 0
      {
        if phase.SkipBytes? && size == 0 {
          // reprocess this byte
          phase := Read;
        } else {
          ok := ScanOne(w, at);
          if !ok {
            return;
          }
          at := at + 1;
        }
      }
      ok := true;
    }
  
    /** Checks a full window against the known formats. */
    method DetectFormat(w: bytes)
      requires |w| == WINDOW
      modifies this`phase, this`format, this`size
      ensures TheControl() == Detect(old(TheControl()), w)
    {
      if format.Unknown? {
        if LiesAt(w, 0, FUJIFILM) {
          format, size, phase := FujiRaw, 84, SkipBytes;
        } else if LiesAt(w, 2, EXIF_HEADER) {
          format, phase := Exif, SizeByte08;
        }
      }
    }

    /** Moves input into the window until it is full or the input is used up. */
    method FillWindow(x: bytes)
      requires WellFormed() && bLen + |x| <= WINDOW && buf == null
      modifies b, this`bLen
      ensures WellFormed() && bLen == old(bLen) + |x|
      ensures b[..bLen] == old(b[..bLen]) + x
    {
      ghost var before := b[..bLen];
      forall k | 0 <= k < |x| {
        b[bLen + k] := x[k];
      }
      bLen := bLen + |x|;
      assert b[..bLen] == before + x;
    }

    /** Checks and scans a full window. */
    method ProcessWindow(w: bytes) returns (at: nat, ok: bool)
      requires |w| == WINDOW
      modifies this`phase, this`format, this`size
      ensures ok ==> Scan(Detect(old(TheControl()), w), w, 0) == Stopped(TheControl(), at)
      ensures !ok ==> Scan(Detect(old(TheControl()), w), w, 0) == Corrupt
    {
      DetectFormat(w);
      at, ok := ScanWindow(w);
    }

    /** Collects what follows in the window, then the rest of the input. */
    method CollectFound(x: bytes, rest: bytes) returns (more: bool)
      requires WellFormed() && phase.ExifFound? && buf == null
      modifies this`buf, this`bytesRead
      ensures WellFormed() && (bytesRead < size ==> buf != null) && (buf != null ==> fresh(buf))
      ensures b[..] == old(b[..])
      ensures var r := Copy(old(Value()), x); (Value(), more) == if r.1 then Copy(r.0, rest) else (r.0, false)
    {
      more := CopyData(x);
      if more {
        more := CopyData(rest);
      }
    }

    /** Finishes a skip and tells what is left of the input. */
    method SkipRest(x: bytes, ghost s: Snapshot) returns (rest: bytes)
      requires WellFormed() && phase.SkipBytes? && size <= |x| && s == Settle(Value()) && Reachable(s)
      modifies this`phase, this`size, this`bLen
      ensures WellFormed() && Reachable(Value()) && !phase.ExifFound? && !phase.SkipBytes? && bLen == 0
      ensures |rest| <= |x| && Run(s, x) == Run(Value(), rest)
    {
      hide Run;
      if size > 0 {
        RunSkipped(s, x);
      }
      rest := x[size..];
      size, bLen := 0, 0;
      phase := if format.FujiRaw? then SizeByte24 else Read;
    }

    /** One pass through a full window; `done` when the call is over. */
    method UseWindow(w: bytes, rest: bytes) returns (done: bool, more: bool)
      requires WellFormed() && buf == null && bLen == WINDOW && b[..] == w
      requires Sound(TheControl()) && !phase.ExifFound? && !phase.SkipBytes?
      modifies this
      ensures WellFormed() && (buf != null ==> fresh(buf))
      ensures !done ==> bLen == 0 && buf == null
      ensures !done ==> Scan(Detect(old(TheControl()), w), w, 0) == Stopped(TheControl(), WINDOW)
      ensures phase.ExifFound? && done && size > 0 ==> buf != null
      ensures done && AfterScan(Scan(Detect(old(TheControl()), w), w, 0), w).1 ==>
        AfterScan(Scan(Detect(old(TheControl()), w), w, 0), w).0.control.phase.ExifFound?
      ensures done ==> var r := AfterScan(Scan(Detect(old(TheControl()), w), w, 0), w);
        (Value(), more) == if r.1 then Copy(r.0, rest) else (r.0, false)
    {
      hide Scan, Detect, Reachable, Sound, Run;
      more := true;
      var at, ok := ProcessWindow(w);
      if !ok {
        Reset();
        return true, false;
      }
      if at < WINDOW {
        assert b[..bLen] == w;
        more := CollectFound(w[at..], rest);
        return true, more;
      }
      bLen := 0;
      done := false;
    }
  
    /** One turn of exif_loader_write, from its `begin` label to the next jump there; `done` when the call is over. */
    method Pass(data: bytes) returns (done: bool, more: bool, rest: bytes)
      requires WellFormed() && Reachable(Settle(Value()))
      modifies this, b, buf
      ensures WellFormed() && (buf != null && buf != old(buf) ==> fresh(buf))
      ensures done ==> (Value(), more) == Run(Settle(old(Value())), data)
      ensures done && phase.ExifFound? && size > 0 ==> buf != null
      ensures !done ==> buf == old(buf) && |rest| < |data| && Reachable(Settle(Value()))
      ensures !done ==> Run(Settle(old(Value())), data) == Run(Settle(Value()), rest)
    {
      hide Run, Scan, Detect, Copy, Sound, AfterScan;
      rest := data;
      done, more := true, true;
      ghost var s := Settle(Value());
      if phase.ExifFound? {
        RunFound(s, rest);
        more := CopyData(rest);
        return;
      }
      if phase.SkipBytes? {
        if size > |rest| {
          RunSkip(s, rest);
          size := size - |rest|;
          return;
        }
        rest := SkipRest(rest, s);
        s := Value();
      }
      if rest == [] {
        RunFill(s, rest);
        assert s.window + [] == s.window;
        return;
      }
      var i := if |rest| < WINDOW - bLen then |rest| else WINDOW - bLen;
      FillWindow(rest[..i]);
      if bLen < WINDOW {
        assert rest[..i] == rest;
        RunFill(s, rest);
        return;
      }
      done, more, rest := PassWindow(s, rest, i);
    }

    /** The rest of the turn, with the window filled by the first `i` bytes of the input. */
    method PassWindow(ghost s: Snapshot, data: bytes, i: nat) returns (done: bool, more: bool, rest: bytes)
      requires WellFormed() && buf == null && bLen == WINDOW && 0 < i <= |data|
      requires Reachable(s) && s.control == TheControl() && !phase.ExifFound? && !phase.SkipBytes?
      requires |s.window| + i == WINDOW && b[..bLen] == s.window + data[..i]
      modifies this
      ensures WellFormed() && (buf != null ==> fresh(buf))
      ensures done ==> (Value(), more) == Run(s, data) && (phase.ExifFound? && size > 0 ==> buf != null)
      ensures !done ==> buf == null && |rest| < |data| && Reachable(Settle(Value()))
      ensures !done ==> Run(s, data) == Run(Settle(Value()), rest)
    {
      hide Run, Scan, Detect, Copy, AfterScan;
      var w := b[..];
      ghost var r := AfterScan(Scan(Detect(s.control, w), w, 0), w);
      rest := data[i..];
      assert w[..|s.window|] == s.window && w[|s.window|..] + rest == data;
      RunWindow(s, w, rest, r);
      done, more := UseWindow(w, rest);
      if done {
        if r.1 {
          RunFound(r.0, rest);
        }
      } else {
        RunOn(TheControl(), w, rest, r);
      }
    }

    /** exif_loader_write: the loader reads on from where it stopped, whatever the size of the chunk. */
    method Write(data: bytes) returns (more: bool)
      requires Valid()
      modifies this, b, buf
      ensures Valid() && (buf != null && buf != old(buf) ==> fresh(buf))
      ensures (Value(), more) == Run(old(Value()), data)
    {
      hide Run, Reachable, WellFormed;
      assert Settle(Value()) == Value() by { SettledAlready(Value()); }
      var rest, done := data, false;
      more := true;
      while !done
        invariant WellFormed() && (!done ==> buf == old(buf)) && (buf != null && buf != old(buf) ==> fresh(buf))
        invariant done ==> (Value(), more) == Run(old(Value()), data) && (phase.ExifFound? && size > 0 ==> buf != null)
        invariant !done ==> Reachable(Settle(Value())) && Run(old(Value()), data) == Run(Settle(Value()), rest)
        decreases !done, |rest|
      {
        done, more, rest := Pass(rest);
      }
    }
  }
}
