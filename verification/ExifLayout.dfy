/**
 The file exif_data_save_data writes: after the header come, one after the other and each only if
 needed, the directories IFD 0, EXIF, Interoperability, GPS and IFD 1, each followed by its values,
 and the thumbnail. Positions are counted from the byte-order mark, as in Section 2 of TIFF 6.0.
 */
module ExifLayout {
  import opened Bytes
  import opened Tiff
  import opened ExifTypes
  import MakerNote

  /** What is saved. `keepNote` is the option not to change the maker note. */
  datatype Model = Model(order: ByteOrder, contents: Contents, thumb: bytes, md: Option<MakerNote.Note>, keepNote: bool)

  const MAX_COMPONENTS := 65536

  // ---- Which directories are written ----

  predicate Present(c: Contents, thumb: bytes, i: Ifd)
  {
    match i
    case Ifd0 => true
    case ExifIfd => c.exif != [] || c.interop != []
    case InteropIfd => c.interop != []
    case GpsIfd => c.gps != []
    case Ifd1 => c.ifd1 != [] || thumb != []
  }

  /** Records besides those of the entries: pointers to other directories, and the thumbnail's two. */
  function Extras(c: Contents, thumb: bytes, i: Ifd): (n: nat)
    ensures n <= 2
  {
    match i
    case Ifd0 => (if Present(c, thumb, ExifIfd) then 1 else 0) + (if Present(c, thumb, GpsIfd) then 1 else 0)
    case ExifIfd => if Present(c, thumb, InteropIfd) then 1 else 0
    case Ifd1 => if thumb != [] then 2 else 0
    case _ => 0
  }

  function Count(c: Contents, thumb: bytes, i: Ifd): nat
  {
    |c.Of(i)| + Extras(c, thumb, i)
  }

  // ---- Entries ----

  /** The entry as it is after saving: an interpreted maker note is written out anew, for the place it lands at. */
  ghost function Effective(m: Model, e: Entry, at: nat): (r: Entry)
    ensures r.tag == e.tag
  {
    if e.tag == TAG_MAKER_NOTE && m.md.Some? && !m.keepNote then
      var (data, size) := MakerNote.Saved(m.md.value.(offset := at));
      Entry(e.tag, if FormatSize(e.format) == 1 then e.format else FMT_UNDEFINED, size, data)
    else e
  }

  /** The bytes written for an entry's value; too many components leave it out. */
  function Payload(e: Entry): (p: bytes)
  {
    var s := ValueBytes(e.format, e.components);
    if e.components > MAX_COMPONENTS then []
    else if s <= |e.data| then e.data[..s]
    else e.data + Zeros(s - |e.data|)
  }

  /** The record of an entry keeps the format the entry had before it was made effective. */
  function SlotOf(e: Entry, eff: Entry): Slot
  {
    Slot(e.tag, e.format, eff.components, Payload(eff))
  }

  function SlotsOf(es: seq<Entry>, effs: seq<Entry>): (s: seq<Slot>)
    requires |es| == |effs|
    ensures |s| == |es|
  {
    seq(|es|, k requires 0 <= k < |es| => SlotOf(es[k], effs[k]))
  }

  /** The first `n` entries made effective, the values starting at `start`. */
  ghost function Effs(m: Model, es: seq<Entry>, n: nat, start: nat): (r: seq<Entry>)
    requires n <= |es|
    ensures |r| == n
  {
    if n == 0 then []
    else
      var r := Effs(m, es, n - 1, start);
      r + [Effective(m, es[n - 1], start + |Values(SlotsOf(es[..n - 1], r), n - 1, true)|)]
  }

  // ---- Positions ----

  /** The directory written before. */
  function Before(i: Ifd): Ifd
  {
    match i
    case Ifd0 => Ifd0
    case ExifIfd => Ifd0
    case InteropIfd => ExifIfd
    case GpsIfd => InteropIfd
    case Ifd1 => GpsIfd
  }

  function Rank(i: Ifd): nat
  {
    match i
    case Ifd0 => 0
    case ExifIfd => 1
    case InteropIfd => 2
    case GpsIfd => 3
    case Ifd1 => 4
  }

  function ValuesFrom(start: nat, count: nat): nat { start + 2 + 12 * count + 4 }

  /** The entries of a directory whose values start at `vals`, as slots. */
  ghost function EntrySlots(m: Model, i: Ifd, vals: nat): (s: seq<Slot>)
    ensures |s| == |m.contents.Of(i)|
  {
    SlotsOf(m.contents.Of(i), Effs(m, m.contents.Of(i), |m.contents.Of(i)|, vals))
  }

  ghost function EntryValues(m: Model, i: Ifd, vals: nat): bytes
  {
    Values(EntrySlots(m, i, vals), |m.contents.Of(i)|, true)
  }

  ghost function Start(m: Model, i: Ifd): nat
    decreases Rank(i), 0
  {
    if i.Ifd0? then 8 else End(m, Before(i))
  }

  ghost function ValueStart(m: Model, i: Ifd): nat
    decreases Rank(i), 1
  {
    ValuesFrom(Start(m, i), Count(m.contents, m.thumb, i))
  }

  ghost function End(m: Model, i: Ifd): nat
    decreases Rank(i), 2
  {
    if Present(m.contents, m.thumb, i) then ValueStart(m, i) + |EntryValues(m, i, ValueStart(m, i))| else Start(m, i)
  }

  // ---- Directories ----

  ghost function PointerItem(tag: int, v: int, order: ByteOrder): Item
  {
    Item(Slot(tag, FMT_LONG, 1, EncLong(v, order)), 0)
  }

  ghost function ExtraItems(m: Model, i: Ifd): (xs: seq<Item>)
    ensures |xs| == Extras(m.contents, m.thumb, i)
  {
    match i
    case Ifd0 =>
      (if Present(m.contents, m.thumb, ExifIfd) then [PointerItem(TAG_EXIF_POINTER, Start(m, ExifIfd), m.order)]
        else [])
      + (if Present(m.contents, m.thumb, GpsIfd) then [PointerItem(TAG_GPS_POINTER, Start(m, GpsIfd), m.order)] else [])
    case ExifIfd =>
      if Present(m.contents, m.thumb, InteropIfd) then [PointerItem(TAG_INTEROP_POINTER, Start(m, InteropIfd), m.order)]
        else []
    case Ifd1 =>
      if m.thumb != [] then
        [PointerItem(TAG_THUMBNAIL, End(m, Ifd1), m.order), PointerItem(TAG_THUMBNAIL_LENGTH, |m.thumb|, m.order)]
      else []
    case _ => []
  }

  /** The records of a directory in the order in which they are written. */
  ghost function DirItems(m: Model, i: Ifd): (xs: seq<Item>)
    ensures |xs| == Count(m.contents, m.thumb, i)
  {
    Items(EntrySlots(m, i, ValueStart(m, i)), ValueStart(m, i), true) + ExtraItems(m, i)
  }

  ghost function Next(m: Model, i: Ifd): nat
  {
    if i.Ifd0? && Present(m.contents, m.thumb, Ifd1) then Start(m, Ifd1) else 0
  }

  // ---- Sorting ----

  predicate TagSorted(xs: seq<Item>)
  {
    forall i, j :: 0 <= i < j < |xs| ==> xs[i].slot.tag <= xs[j].slot.tag
  }

  function Insert(x: Item, xs: seq<Item>): (r: seq<Item>)
    ensures |r| == |xs| + 1
  {
    if xs == [] || x.slot.tag <= xs[0].slot.tag then [x] + xs else [xs[0]] + Insert(x, xs[1..])
  }

  /** The records in ascending tag order. */
  function Sorted(xs: seq<Item>): (r: seq<Item>)
    ensures |r| == |xs|
  {
    if xs == [] then [] else Insert(xs[0], Sorted(xs[1..]))
  }

  // ---- The file ----

  ghost function Directory(items: seq<Item>, next: int, order: ByteOrder): bytes
  {
    EncShort(|items|, order) + Records(items, |items|, order) + EncLong(next, order)
  }

  /** A directory and its values. */
  ghost function Section(m: Model, i: Ifd): bytes
  {
    if !Present(m.contents, m.thumb, i) then []
    else Directory(Sorted(DirItems(m, i)), Next(m, i), m.order) + EntryValues(m, i, ValueStart(m, i))
  }

  ghost function FileHeader(order: ByteOrder): (h: bytes)
    ensures |h| == 14
  {
    EXIF_HEADER + MakerNote.OrderMark(order) + EncShort(0x2a, order) + EncLong(8, order)
  }

  /** The saved file. */
  ghost function FileOf(m: Model): bytes
  {
    FileHeader(m.order) + Section(m, Ifd0) + Section(m, ExifIfd) + Section(m, InteropIfd) + Section(m, GpsIfd)
      + Section(m, Ifd1) + m.thumb
  }

  /** The entries of a directory after saving. */
  ghost function SavedEntries(m: Model, i: Ifd): (es: seq<Entry>)
    ensures |es| == |m.contents.Of(i)|
  {
    Effs(m, m.contents.Of(i), |m.contents.Of(i)|, ValueStart(m, i))
  }

  /** The contents after saving. */
  ghost function SavedContents(m: Model): Contents
  {
    Contents(SavedEntries(m, Ifd0), SavedEntries(m, Ifd1), SavedEntries(m, ExifIfd), SavedEntries(m, GpsIfd),
      SavedEntries(m, InteropIfd))
  }
}
