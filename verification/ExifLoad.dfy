/**
 What exif_data_load_data makes of a file: the walk over the directories, with its bounds checks, its
 "used" flags and its recursion-cost guard. Positions are counted from the byte-order mark.
 */
module ExifLoad {
  import opened Bytes
  import opened Tiff
  import opened ExifTypes
  import TagTable

  /** Whether the three sub-directories have been entered. */
  datatype Used = Used(exif: bool, gps: bool, interop: bool)
  {
    predicate Of(i: Ifd)
    {
      match i
      case ExifIfd => exif
      case GpsIfd => gps
      case InteropIfd => interop
      case _ => false
    }

    function Mark(i: Ifd): Used
    {
      match i
      case ExifIfd => this.(exif := true)
      case GpsIfd => this.(gps := true)
      case InteropIfd => this.(interop := true)
      case _ => this
    }

    function Unset(): nat
    {
      (if exif then 0 else 1) + (if gps then 0 else 1) + (if interop then 0 else 1)
    }
  }

  /** A directory that was walked: `n` records from `at` on; `path` holds the record counts of its ancestors. */
  datatype Visit = Visit(ifd: Ifd, at: nat, n: nat, path: seq<nat>)

  /** What loading changes, and the directories it has walked. */
  datatype State = State(contents: Contents, used: Used, thumb: bytes, mnote: nat, visits: seq<Visit>)

  /** What loading only reads: the bytes from the byte-order mark on, their order, and the known tags. */
  datatype Input = Input(d: bytes, order: ByteOrder, table: seq<TagTable.Row>, ignoreUnknown: bool)

  /** A JPEG segment holds no more, counted from the byte-order mark. */
  const MAX_DATA := 0xfffe - 6

  predicate ValidInput(x: Input)
  {
    TagTable.ValidTable(x.table) && |x.d| <= MAX_DATA
  }

  // ---- The recursion cost ----

  /** The least k from `from` on with 1.1^k >= x, `p` being 1.1^from. */
  function CostFrom(x: real, from: nat, p: real): (k: nat)
    requires p >= 1.0
    decreases if p >= x then 0.0 else 10.0 * (x - p) + 1.0
  {
    if p >= x then from else CostFrom(x, from + 1, p * 1.1)
  }

  /** level_cost: the least k with 1.1^k >= n + 0.1. */
  function LevelCost(n: nat): nat
  {
    CostFrom(n as real + 0.1, 0, 1.0)
  }

  function PathCost(path: seq<nat>): nat
  {
    if path == [] then 0 else PathCost(path[..|path| - 1]) + LevelCost(path[|path| - 1])
  }

  const MAX_COST := 170

  // ---- One record ----

  /** What a record stores, and where its value lies. */
  datatype Loaded = Loaded(e: Entry, at: nat)

  /** exif_data_load_data_entry on the record at `pos`. */
  function LoadEntry(x: Input, pos: nat): (r: Option<Loaded>)
    requires pos + 12 <= |x.d|
  {
    var f := ReadFields(x.d, pos, x.order);
    var fs := FormatSize(f.format);
    if fs == 0 || f.components >= 0xffff_ffff / fs then None
    else
      var s := ValueBytes(f.format, f.components);
      if s == 0 then None
      else
        var at := if s > 4 then f.stored else pos + 8;
        if at >= |x.d| || s > |x.d| - at then None
        else Some(Loaded(Entry(f.tag, f.format, f.components, x.d[at..at + s]), at))
  }

  /** exif_content_add_entry: a tag is added to a directory only once. */
  function AddEntry(es: seq<Entry>, e: Entry): seq<Entry>
  {
    if HasTag(es, e.tag) then es else es + [e]
  }

  /** exif_data_load_data_thumbnail. */
  function LoadThumbnail(st: State, d: bytes, o: nat, s: nat): State
  {
    if o >= |d| || CheckOverflow(o, |d|, s) then st else st.(thumb := d[o..o + s])
  }

  /** A record whose tag is not special. */
  function Ordinary(st: State, ifd: Ifd, x: Input, pos: nat): (r: State)
    requires ValidInput(x) && pos + 12 <= |x.d|
    ensures r.used == st.used
  {
    var tag := GetShort(x.d, pos, x.order);
    if !TagTable.Named(x.table, tag, ifd)
      && ((x.d[pos] == 0 && x.d[pos + 1] == 0 && x.d[pos + 2] == 0 && x.d[pos + 3] == 0) || x.ignoreUnknown) then st
    else
      match LoadEntry(x, pos)
      case None => st
      case Some(l) =>
        var st' := if l.e.tag == TAG_MAKER_NOTE then st.(mnote := l.at) else st;
        st'.(contents := st'.contents.With(ifd, AddEntry(st'.contents.Of(ifd), l.e)))
  }

  /** The directory a pointer tag leads to. */
  function Target(tag: int): Option<Ifd>
  {
    if tag == TAG_EXIF_POINTER then Some(ExifIfd)
    else if tag == TAG_GPS_POINTER then Some(GpsIfd)
    else if tag == TAG_INTEROP_POINTER then Some(InteropIfd)
    else None
  }

  /** CHECK_REC: the directory may be entered. */
  predicate MayEnter(st: State, ifd: Ifd, i: Ifd)
  {
    i != ifd && st.contents.Of(i) == [] && !st.used.Of(i)
  }

  // ---- The walk ----

  /** The state between two records of a directory: `to` and `tl` are the thumbnail's place and length so far. */
  datatype Loop = Loop(st: State, to: nat, tl: nat, stop: bool)

  /** A special record whose field `o` lies inside the data. */
  function StepSpecial(l: Loop, ifd: Ifd, x: Input, tag: int, o: nat, n: nat, path: seq<nat>): (r: Loop)
    requires ValidInput(x)
    ensures r.st.used.Unset() <= l.st.used.Unset()
    decreases l.st.used.Unset(), 0, 0
  {
    match Target(tag)
    case None =>
      var to := if tag == TAG_THUMBNAIL then o else l.to;
      var tl := if tag == TAG_THUMBNAIL then l.tl else o;
      Loop(if to != 0 && tl != 0 then LoadThumbnail(l.st, x.d, to, tl) else l.st, to, tl, false)
    case Some(i) =>
      if !MayEnter(l.st, ifd, i) then l
      else l.(st := LoadContent(l.st.(used := l.st.used.Mark(i)), i, x, o, path + [n]))
  }

  /** One turn of the loop of exif_data_load_data_content, for record `k` of `n`. */
  function StepRecord(l: Loop, ifd: Ifd, x: Input, at: nat, n: nat, k: nat, path: seq<nat>): (r: Loop)
    requires ValidInput(x) && k < n && at + 12 * n <= |x.d|
    ensures r.st.used.Unset() <= l.st.used.Unset()
    decreases l.st.used.Unset(), 1, 0
  {
    var pos := at + 12 * k;
    var tag := GetShort(x.d, pos, x.order);
    if !Special(tag) then l.(st := Ordinary(l.st, ifd, x, pos))
    else
      var o := GetLong(x.d, pos + 8, x.order);
      if o >= |x.d| then l.(stop := PathCost(path) > 0) else StepSpecial(l, ifd, x, tag, o, n, path)
  }

  /** The loop from record `k` on. */
  function LoadRecords(l: Loop, ifd: Ifd, x: Input, at: nat, n: nat, k: nat, path: seq<nat>): (r: State)
    requires ValidInput(x) && k <= n && at + 12 * n <= |x.d|
    ensures r.used.Unset() <= l.st.used.Unset()
    decreases l.st.used.Unset(), 2, n - k
  {
    if k == n || l.stop then l.st else LoadRecords(StepRecord(l, ifd, x, at, n, k, path), ifd, x, at, n, k + 1, path)
  }

  /** exif_data_load_data_content on the directory at `at`. */
  function LoadContent(st: State, ifd: Ifd, x: Input, at: nat, path: seq<nat>): (r: State)
    requires ValidInput(x)
    ensures r.used.Unset() <= st.used.Unset()
    decreases st.used.Unset(), 3, 0
  {
    if PathCost(path) > MAX_COST || CheckOverflow(at, |x.d|, 2) then st
    else
      var n := RecordCount(x, at);
      LoadRecords(Loop(st.(visits := st.visits + [Visit(ifd, at, n, path)]), 0, 0, false), ifd, x, at + 2, n, 0, path)
  }

  /** The number of records of the directory at `at`, cut off at the end of the data. */
  function RecordCount(x: Input, at: nat): (n: nat)
    requires at + 2 <= |x.d|
    ensures at + 2 + 12 * n <= |x.d|
  {
    var n := GetShort(x.d, at, x.order);
    if CheckOverflow(at + 2, |x.d|, 12 * n) then (|x.d| - (at + 2)) / 12 else n
  }

  // ---- The file ----

  /** The first position from `i` on that holds no fill byte. */
  function SkipFill(b: bytes, i: nat): (j: nat)
    requires i <= |b|
    ensures i <= j <= |b|
    decreases |b| - i
  {
    if i < |b| && b[i] == 0xff then SkipFill(b, i + 1) else i
  }

  /** The search for an APP1 marker with the EXIF header; other application segments are passed over. */
  function Search(b: bytes, i: nat): (r: Option<nat>)
    requires i <= |b|
    ensures r.Some? ==> i <= r.value && r.value + 9 <= |b| && b[r.value] == 0xe1 && LiesAt(b, r.value + 3, EXIF_HEADER)
    decreases |b| - i
  {
    if |b| - i < 3 then None
    else
      var j := SkipFill(b, i);
      if j == |b| then None
      else if b[j] == 0xd8 then Search(b, j + 1)
      else if b[j] == 0xe1 && |b| - j >= 9 && LiesAt(b, j + 3, EXIF_HEADER) then Some(j)
      else if |b| - j >= 3 && 0xe0 <= b[j] <= 0xef then
        var l := GetShort(b, j + 1, Motorola);
        if l > |b| - (j + 1) then None else Search(b, j + 1 + l)
      else None
  }

  /** The EXIF block of a file: from its header to the end of the segment, or of the data. */
  function FindExif(b: bytes): (r: Option<bytes>)
    ensures r.Some? ==> |r.value| >= 14 && LiesAt(r.value, 0, EXIF_HEADER)
  {
    if |b| < 6 then None
    else if LiesAt(b, 0, EXIF_HEADER) then (if |b| < 14 then None else Some(b))
    else
      match Search(b, 0)
      case None => None
      case Some(j) =>
        var len := GetShort(b, j + 1, Motorola);
        if len > |b| - (j + 1) || len < 16 then None
        else
          var f := b[j + 3..j + 1 + len];
          assert LiesAt(f, 0, EXIF_HEADER) by {
            forall k | 0 <= k < 6 ensures f[0 + k] == EXIF_HEADER[k] { assert f[k] == b[j + 3 + k]; }
          }
          Some(f)
  }

  /** The byte order a block declares. */
  function DeclaredOrder(d: bytes): Option<ByteOrder>
    requires |d| >= 8
  {
    if d[0] == 0x49 && d[1] == 0x49 then Some(Intel)
    else if d[0] == 0x4d && d[1] == 0x4d then Some(Motorola)
    else None
  }

  /** What a load leaves: the byte order, the state, and whether the maker note gets its turn. */
  datatype Result = Result(order: ByteOrder, st: State, complete: bool)

  /** Both directory chains of the block `d`, whose order is known. */
  function LoadBlock(st: State, x: Input): Result
    requires ValidInput(x) && |x.d| >= 8
  {
    if GetShort(x.d, 2, x.order) != 0x2a then Result(x.order, st, false)
    else
      var offset := GetLong(x.d, 4, x.order);
      if offset + 2 > |x.d| then Result(x.order, st, false)
      else
        var st' := LoadContent(st, Ifd0, x, offset, []);
        var n := GetShort(x.d, offset, x.order);
        if offset + 2 + 12 * n + 4 > |x.d| then Result(x.order, st', false)
        else
          var next := GetLong(x.d, offset + 2 + 12 * n, x.order);
          if next == 0 || next > |x.d| then Result(x.order, st', true)
          else Result(x.order, LoadContent(st', Ifd1, x, next, []), true)
  }

  /** The bytes of an EXIF block that are looked at, from the byte-order mark on. */
  function Capped(f: bytes): (d: bytes)
    requires |f| >= 14
    ensures 8 <= |d| <= MAX_DATA
  {
    if |f| > 0xfffe then f[6..0xfffe] else f[6..]
  }

  /** exif_data_load_data up to the interpretation of the maker note. */
  function LoadFile(order: ByteOrder, st: State, b: bytes, table: seq<TagTable.Row>, ignoreUnknown: bool): Result
    requires TagTable.ValidTable(table)
  {
    match FindExif(b)
    case None => Result(order, st, false)
    case Some(f) =>
      var d := Capped(f);
      match DeclaredOrder(d)
      case None => Result(order, st, false)
      case Some(o) => LoadBlock(st, Input(d, o, table, ignoreUnknown))
  }

  /** An object into which nothing has been loaded. */
  const FRESH := State(EMPTY, Used(false, false, false), [], 0, [])
}
