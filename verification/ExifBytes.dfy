/** Saved files and loaded records to the byte. */
module ExifBytes {
  import opened Bytes
  import opened Tiff
  import opened ExifTypes
  import opened ExifLayout
  import opened ExifLoad
  import opened ExifLoadMeaning
  import opened ExifLoadComplete
  import MakerNoteBytes
  import TagTable

  // ---- The header ----

  /** "Exif", two zero bytes, "II" or "MM", 42, and the place of IFD 0, in that order. */
  lemma {:induction false} HeaderBytes()
    ensures FileHeader(Intel) == [0x45, 0x78, 0x69, 0x66, 0, 0, 0x49, 0x49, 0x2a, 0, 8, 0, 0, 0]
    ensures FileHeader(Motorola) == [0x45, 0x78, 0x69, 0x66, 0, 0, 0x4d, 0x4d, 0, 0x2a, 0, 0, 0, 8]
  {
    MakerNoteBytes.StoredIntel();
    MakerNoteBytes.StoredMotorola();
  }

  // ---- A whole file ----

  /** A record as the bytes it consists of. */
  function RecordBytes(tag: int, format: int, components: int, field: bytes, order: ByteOrder): bytes
  {
    ShortDigits(tag, order) + ShortDigits(format, order) + LongDigits(components, order) + field
  }

  lemma {:induction false} RecordIsBytes(i: Item, order: ByteOrder)
    ensures Record(i, order) == RecordBytes(i.slot.tag, i.slot.format, i.slot.components,
      if |i.slot.payload| > 4 then LongDigits(i.ptr, order) else i.slot.payload + Zeros(4 - |i.slot.payload|), order)
  {
    hide ShortDigits, LongDigits;
    ShortDigitsMeetSpec(i.slot.tag, order);
    ShortDigitsMeetSpec(i.slot.format, order);
    LongDigitsMeetSpec(i.slot.components, order);
    LongDigitsMeetSpec(i.ptr, order);
  }

  const TEXT := Entry(0x10e, 2, 5, [0x61, 0x62, 0x63, 0x64, 0])
  const GPS_VERSION := Entry(0, 1, 4, [2, 2, 0, 0])
  const INDEX := Entry(1, 2, 3, [0x52, 0x39, 0])

  /** A description of five bytes, a GPS version, an interoperability index, and a thumbnail of one byte. */
  const SAMPLE := Model(Intel, Contents([TEXT], [], [], [GPS_VERSION], [INDEX]), [9], None, false)

  /** Directories of one record, or of two or three, as their records. */
  lemma {:induction false} FewRecords(a: Item, b: Item, c: Item, order: ByteOrder)
    ensures Records([a], 1, order) == Record(a, order)
    ensures Records([a, b], 2, order) == Record(a, order) + Record(b, order)
    ensures Records([a, b, c], 3, order) == Record(a, order) + Record(b, order) + Record(c, order)
  {
    hide Record;
    RecordsNext([a], 0, order);
    RecordsNext([a, b], 0, order);
    RecordsNext([a, b], 1, order);
    RecordsNext([a, b, c], 0, order);
    RecordsNext([a, b, c], 1, order);
    RecordsNext([a, b, c], 2, order);
  }

  lemma {:induction false} SampleEffs(e: Entry, start: nat)
    ensures Effs(SAMPLE, [e], 1, start) == [e] && Effs(SAMPLE, [], 0, start) == []
    ensures SlotsOf([e], [e]) == [SlotOf(e, e)]
  {
    hide SlotOf;
    assert Effs(SAMPLE, [e], 0, start) == [];
    assert Effective(SAMPLE, e, start + |Values(SlotsOf([e][..0], []), 0, true)|) == e;
  }

  /** One entry's slot, and its value behind the directory if it has more than four bytes. */
  lemma {:induction false} OneEntry(e: Entry, i: Ifd, vals: nat)
    requires SAMPLE.contents.Of(i) == [e]
    ensures EntrySlots(SAMPLE, i, vals) == [SlotOf(e, e)]
    ensures EntryValues(SAMPLE, i, vals) == OutOfLine(Payload(e), true)
    ensures Items(EntrySlots(SAMPLE, i, vals), vals, true) == [Item(SlotOf(e, e), vals)]
  {
    hide SlotOf, Payload, Effs, SlotsOf;
    SampleEffs(e, vals);
    ValuesNext([SlotOf(e, e)], 0, true);
    assert Values([SlotOf(e, e)], 0, true) == [];
    assert SlotOf(e, e).payload == Payload(e) by { SlotIs(e); }
  }

  lemma {:induction false} SlotIs(e: Entry)
    ensures SlotOf(e, e) == Slot(e.tag, e.format, e.components, Payload(e))
  {
  }

  lemma {:induction false} NoEntry(i: Ifd, vals: nat)
    requires SAMPLE.contents.Of(i) == []
    ensures EntrySlots(SAMPLE, i, vals) == [] && EntryValues(SAMPLE, i, vals) == []
    ensures Items(EntrySlots(SAMPLE, i, vals), vals, true) == []
  {
  }

  lemma {:induction false} SamplePayloads()
    ensures Payload(TEXT) == TEXT.data && OutOfLine(Payload(TEXT), true) == [0x61, 0x62, 0x63, 0x64, 0, 0]
    ensures Payload(GPS_VERSION) == [2, 2, 0, 0] && OutOfLine(Payload(GPS_VERSION), true) == []
    ensures Payload(INDEX) == [0x52, 0x39, 0] && OutOfLine(Payload(INDEX), true) == []
  {
    assert TEXT.data[..5] == TEXT.data && GPS_VERSION.data[..4] == GPS_VERSION.data && INDEX.data[..3] == INDEX.data;
  }

  lemma {:induction false} SampleShape()
    ensures Present(SAMPLE.contents, SAMPLE.thumb, Ifd0) && Present(SAMPLE.contents, SAMPLE.thumb, ExifIfd)
    ensures Present(SAMPLE.contents, SAMPLE.thumb, InteropIfd) && Present(SAMPLE.contents, SAMPLE.thumb, GpsIfd)
    ensures Present(SAMPLE.contents, SAMPLE.thumb, Ifd1)
    ensures Count(SAMPLE.contents, SAMPLE.thumb, Ifd0) == 3 && Count(SAMPLE.contents, SAMPLE.thumb, ExifIfd) == 1
    ensures Count(SAMPLE.contents, SAMPLE.thumb, InteropIfd) == 1 && Count(SAMPLE.contents, SAMPLE.thumb, GpsIfd) == 1
    ensures Count(SAMPLE.contents, SAMPLE.thumb, Ifd1) == 2
  {
  }

  lemma {:induction false} SamplePlace(i: Ifd, start: nat, n: nat, vals: nat)
    requires Present(SAMPLE.contents, SAMPLE.thumb, i) && Count(SAMPLE.contents, SAMPLE.thumb, i) == n
    requires Start(SAMPLE, i) == start
    requires |EntryValues(SAMPLE, i, start + 6 + 12 * n)| == vals
    ensures ValueStart(SAMPLE, i) == start + 6 + 12 * n && End(SAMPLE, i) == start + 6 + 12 * n + vals
  {
    hide Present, Count, EntryValues, Start;
  }

  lemma {:induction false} SamplePlaces()
    ensures Start(SAMPLE, Ifd0) == 8 && ValueStart(SAMPLE, Ifd0) == 50
    ensures Start(SAMPLE, ExifIfd) == 56 && ValueStart(SAMPLE, ExifIfd) == 74
    ensures Start(SAMPLE, InteropIfd) == 74 && ValueStart(SAMPLE, InteropIfd) == 92
    ensures Start(SAMPLE, GpsIfd) == 92 && ValueStart(SAMPLE, GpsIfd) == 110
    ensures Start(SAMPLE, Ifd1) == 110 && ValueStart(SAMPLE, Ifd1) == 140 && End(SAMPLE, Ifd1) == 140
  {
    hide ValueStart, End, EntryValues, EntrySlots, Present, Count, Payload, Items;
    SampleShape();
    SamplePayloads();
    OneEntry(TEXT, Ifd0, 50);
    SamplePlace(Ifd0, 8, 3, 6);
    NoEntry(ExifIfd, 74);
    SamplePlace(ExifIfd, 56, 1, 0);
    OneEntry(INDEX, InteropIfd, 92);
    SamplePlace(InteropIfd, 74, 1, 0);
    OneEntry(GPS_VERSION, GpsIfd, 110);
    SamplePlace(GpsIfd, 92, 1, 0);
    NoEntry(Ifd1, 140);
    SamplePlace(Ifd1, 110, 2, 0);
  }

  lemma {:induction false} SampleSection(i: Ifd, items: seq<Item>, next: int, vals: bytes)
    requires Present(SAMPLE.contents, SAMPLE.thumb, i) && Sorted(DirItems(SAMPLE, i)) == items
    requires Next(SAMPLE, i) == next
    requires EntryValues(SAMPLE, i, ValueStart(SAMPLE, i)) == vals
    ensures Section(SAMPLE, i)
      == ShortDigits(|items|, Intel) + Records(items, |items|, Intel) + LongDigits(next, Intel) + vals
  {
    hide Present, Sorted, DirItems, Next, EntryValues, ValueStart, ShortDigits, LongDigits, Records;
    ShortDigitsMeetSpec(|items|, Intel);
    LongDigitsMeetSpec(next, Intel);
  }

  lemma {:induction false} SortedOne(a: Item)
    ensures Sorted([a]) == [a]
  {
    assert Sorted([]) == [];
    assert [a][1..] == [];
  }

  lemma {:induction false} SortedTwo(a: Item, b: Item)
    requires a.slot.tag < b.slot.tag
    ensures Sorted([a, b]) == [a, b]
  {
    SortedOne(b);
    assert [a, b][1..] == [b];
  }

  lemma {:induction false} SortedFew(a: Item, b: Item, c: Item)
    requires a.slot.tag < b.slot.tag < c.slot.tag
    ensures Sorted([a, b, c]) == [a, b, c]
  {
    SortedTwo(b, c);
    assert [a, b, c][1..] == [b, c];
  }

  /** A record that holds the number `v`, less than 256. */
  lemma {:induction false} PointerBytes(tag: int, lo: byte, hi: byte, v: int)
    requires tag == 0x100 * (hi as int) + lo && 0 <= v < 0x100
    ensures Record(PointerItem(tag, v, Intel), Intel) == [lo, hi, 4, 0, 1, 0, 0, 0, v, 0, 0, 0]
    ensures PointerItem(tag, v, Intel).slot.tag == tag
  {
    hide Record;
    RecordIsBytes(PointerItem(tag, v, Intel), Intel);
    LongDigitsMeetSpec(v, Intel);
    DivModUnique(tag, 0x100, hi, lo);
    assert LongDigits(v, Intel) == [v, 0, 0, 0];
    assert [v, 0, 0, 0] + Zeros(0) == [v, 0, 0, 0];
  }

  /** Numbers below 256 as they are stored. */
  lemma {:induction false} SmallNumbers(v: int)
    requires 0 <= v < 0x100
    ensures ShortDigits(v, Intel) == [v, 0] && LongDigits(v, Intel) == [v, 0, 0, 0]
  {
  }

  lemma {:induction false} SampleRecords()
    ensures Record(Item(SlotOf(TEXT, TEXT), 50), Intel) == [0x0e, 0x01, 2, 0, 5, 0, 0, 0, 50, 0, 0, 0]
    ensures Record(Item(SlotOf(INDEX, INDEX), 92), Intel) == [1, 0, 2, 0, 3, 0, 0, 0, 0x52, 0x39, 0, 0]
    ensures Record(Item(SlotOf(GPS_VERSION, GPS_VERSION), 110), Intel) == [0, 0, 1, 0, 4, 0, 0, 0, 2, 2, 0, 0]
  {
    hide Record, Payload;
    SamplePayloads();
    RecordIsBytes(Item(SlotOf(TEXT, TEXT), 50), Intel);
    RecordIsBytes(Item(SlotOf(INDEX, INDEX), 92), Intel);
    RecordIsBytes(Item(SlotOf(GPS_VERSION, GPS_VERSION), 110), Intel);
    assert [0x52, 0x39, 0] + Zeros(1) == [0x52, 0x39, 0, 0];
    assert [2, 2, 0, 0] + Zeros(0) == [2, 2, 0, 0];
  }

  /** The records of each directory, in the order in which they are written. */
  lemma {:induction false} SampleItems()
    ensures DirItems(SAMPLE, Ifd0)
         == [Item(SlotOf(TEXT, TEXT), 50), PointerItem(0x8769, 56, Intel), PointerItem(0x8825, 92, Intel)]
    ensures DirItems(SAMPLE, ExifIfd) == [PointerItem(0xa005, 74, Intel)]
    ensures DirItems(SAMPLE, Ifd1) == [PointerItem(0x201, 140, Intel), PointerItem(0x202, 1, Intel)]
    ensures Next(SAMPLE, Ifd0) == 110 && Next(SAMPLE, ExifIfd) == 0 && Next(SAMPLE, Ifd1) == 0
  {
    hide EntryValues, EntrySlots, Payload, Items, Start, ValueStart, End, PointerItem, Count, Present, SlotOf;
    SampleShape();
    SamplePlaces();
    OneEntry(TEXT, Ifd0, 50);
    NoEntry(ExifIfd, 74);
    NoEntry(Ifd1, 140);
  }

  lemma {:induction false} SampleIfd0()
    ensures Section(SAMPLE, Ifd0) == [3, 0]
      + ([0x0e, 0x01, 2, 0, 5, 0, 0, 0, 50, 0, 0, 0]
         + [0x69, 0x87, 4, 0, 1, 0, 0, 0, 56, 0, 0, 0]
         + [0x25, 0x88, 4, 0, 1, 0, 0, 0, 92, 0, 0, 0])
      + [110, 0, 0, 0]
      + [0x61, 0x62, 0x63, 0x64, 0, 0]
  {
    hide EntryValues, EntrySlots, Payload, ValueStart, Record, Records, PointerItem, Sorted, Section, Count, Present;
    hide ShortDigits, LongDigits, DirItems, Next, SlotOf;
    SampleShape();
    SamplePayloads();
    SamplePlaces();
    SampleItems();
    OneEntry(TEXT, Ifd0, 50);
    SlotIs(TEXT);
    var t := Item(SlotOf(TEXT, TEXT), 50);
    var e, g := PointerItem(0x8769, 56, Intel), PointerItem(0x8825, 92, Intel);
    PointerBytes(0x8769, 0x69, 0x87, 56);
    PointerBytes(0x8825, 0x25, 0x88, 92);
    SampleRecords();
    SortedFew(t, e, g);
    FewRecords(t, e, g, Intel);
    SampleSection(Ifd0, [t, e, g], 110, [0x61, 0x62, 0x63, 0x64, 0, 0]);
    SmallNumbers(3);
    SmallNumbers(110);
  }

  lemma {:induction false} SampleExif()
    ensures Section(SAMPLE, ExifIfd) == [1, 0] + [0x05, 0xa0, 4, 0, 1, 0, 0, 0, 74, 0, 0, 0] + [0, 0, 0, 0]
  {
    hide EntryValues, EntrySlots, Payload, ValueStart, Record, Records, PointerItem, Sorted, Section, Count, Present;
    hide ShortDigits, LongDigits, DirItems, Next;
    SampleShape();
    SamplePlaces();
    SampleItems();
    NoEntry(ExifIfd, 74);
    var p := PointerItem(0xa005, 74, Intel);
    PointerBytes(0xa005, 0x05, 0xa0, 74);
    SortedOne(p);
    FewRecords(p, p, p, Intel);
    SampleSection(ExifIfd, [p], 0, []);
    SmallNumbers(1);
    SmallNumbers(0);
  }

  lemma {:induction false} SampleIfd1()
    ensures Section(SAMPLE, Ifd1) == [2, 0]
      + ([0x01, 0x02, 4, 0, 1, 0, 0, 0, 140, 0, 0, 0] + [0x02, 0x02, 4, 0, 1, 0, 0, 0, 1, 0, 0, 0])
      + [0, 0, 0, 0]
  {
    hide EntryValues, EntrySlots, Payload, ValueStart, Record, Records, PointerItem, Sorted, Section, Count, Present;
    hide ShortDigits, LongDigits, DirItems, Next;
    SampleShape();
    SamplePlaces();
    SampleItems();
    NoEntry(Ifd1, 140);
    var p, q := PointerItem(0x201, 140, Intel), PointerItem(0x202, 1, Intel);
    PointerBytes(0x201, 0x01, 0x02, 140);
    PointerBytes(0x202, 0x02, 0x02, 1);
    SortedTwo(p, q);
    FewRecords(p, q, q, Intel);
    SampleSection(Ifd1, [p, q], 0, []);
    SmallNumbers(2);
    SmallNumbers(0);
  }

  lemma {:induction false} SampleOne(e: Entry, i: Ifd, vals: nat)
    requires (i.InteropIfd? && e == INDEX && vals == 92) || (i.GpsIfd? && e == GPS_VERSION && vals == 110)
    ensures Section(SAMPLE, i) == [1, 0] + Record(Item(SlotOf(e, e), vals), Intel) + [0, 0, 0, 0]
  {
    hide EntryValues, EntrySlots, Payload, Items, Start, ValueStart, End, Record, Records, Sorted, Section, Count;
    hide ShortDigits, LongDigits;
    SampleShape();
    SamplePlaces();
    SamplePayloads();
    OneEntry(e, i, vals);
    var t := Item(SlotOf(e, e), vals);
    assert DirItems(SAMPLE, i) == [t];
    SortedOne(t);
    FewRecords(t, t, t, Intel);
    SampleSection(i, [t], 0, []);
    SmallNumbers(1);
    SmallNumbers(0);
    assert ShortDigits(1, Intel) + Record(t, Intel) + LongDigits(0, Intel) + []
      == [1, 0] + Record(t, Intel) + [0, 0, 0, 0];
  }

  lemma {:induction false} SampleInteropGps()
    ensures Section(SAMPLE, InteropIfd) == [1, 0] + [1, 0, 2, 0, 3, 0, 0, 0, 0x52, 0x39, 0, 0] + [0, 0, 0, 0]
    ensures Section(SAMPLE, GpsIfd) == [1, 0] + [0, 0, 1, 0, 4, 0, 0, 0, 2, 2, 0, 0] + [0, 0, 0, 0]
  {
    hide Record, Section, Payload, SlotOf;
    SampleRecords();
    SampleOne(INDEX, InteropIfd, 92);
    SampleOne(GPS_VERSION, GpsIfd, 110);
  }

  /** The whole saved file: its header, IFD 0, EXIF, Interoperability, GPS, IFD 1 and the thumbnail. */
  lemma {:induction false} SampleFile()
    ensures FileOf(SAMPLE) == [0x45, 0x78, 0x69, 0x66, 0, 0, 0x49, 0x49, 0x2a, 0, 8, 0, 0, 0]
      + ([3, 0]
         + ([0x0e, 0x01, 2, 0, 5, 0, 0, 0, 50, 0, 0, 0]
            + [0x69, 0x87, 4, 0, 1, 0, 0, 0, 56, 0, 0, 0]
            + [0x25, 0x88, 4, 0, 1, 0, 0, 0, 92, 0, 0, 0])
         + [110, 0, 0, 0]
         + [0x61, 0x62, 0x63, 0x64, 0, 0])
      + ([1, 0] + [0x05, 0xa0, 4, 0, 1, 0, 0, 0, 74, 0, 0, 0] + [0, 0, 0, 0])
      + ([1, 0] + [1, 0, 2, 0, 3, 0, 0, 0, 0x52, 0x39, 0, 0] + [0, 0, 0, 0])
      + ([1, 0] + [0, 0, 1, 0, 4, 0, 0, 0, 2, 2, 0, 0] + [0, 0, 0, 0])
      + ([2, 0]
         + ([0x01, 0x02, 4, 0, 1, 0, 0, 0, 140, 0, 0, 0] + [0x02, 0x02, 4, 0, 1, 0, 0, 0, 1, 0, 0, 0])
         + [0, 0, 0, 0])
      + [9]
  {
    hide Section, FileHeader;
    HeaderBytes();
    SampleIfd0();
    SampleExif();
    SampleInteropGps();
    SampleIfd1();
  }

  // ---- Records ----

  /**
   When a record stores an entry: its format is known, it has components, not so many that their bytes would come near
   2^32, and its value lies inside the data, in the record if it fits into four bytes and else where the record says.
   */
  lemma {:induction false} EntryExactly(x: Input, pos: nat)
    requires pos + 12 <= |x.d|
    ensures var format, components := GetShort(x.d, pos + 2, x.order), GetLong(x.d, pos + 4, x.order);
      var size := FormatSize(format) * components;
      var at := if size <= 4 then pos + 8 else GetLong(x.d, pos + 8, x.order);
      && (LoadEntry(x, pos).Some? <==>
            1 <= format <= 12 && 0 < components < 0xffff_ffff / FormatSize(format) && at + size <= |x.d|)
  {
    hide GetShort, GetLong;
    var format, components := GetShort(x.d, pos + 2, x.order), GetLong(x.d, pos + 4, x.order);
    ValueBytesIsProduct(format, components);
  }

  /** A thumbnail is taken exactly when it lies inside the data. */
  lemma {:induction false} ThumbnailExactly(st: State, d: bytes, o: nat, s: nat)
    ensures s > 0 && o + s <= |d| ==> LoadThumbnail(st, d, o, s).thumb == d[o..o + s]
    ensures s > 0 && o + s > |d| ==> LoadThumbnail(st, d, o, s) == st
  {
  }

  /** No more of a block is looked at than a JPEG segment can hold. */
  lemma {:induction false} CappedExactly(f: bytes)
    requires |f| >= 14
    ensures LiesAt(f, 6, Capped(f)) && |Capped(f)| == (if |f| <= 0xfffe then |f| else 0xfffe) - 6
  {
  }

  /** "II" and "MM" declare an order, and nothing else does. */
  lemma {:induction false} OrderExactly(d: bytes)
    requires |d| >= 8
    ensures DeclaredOrder(d) == Some(Intel) <==> d[0] == 0x49 && d[1] == 0x49
    ensures DeclaredOrder(d) == Some(Motorola) <==> d[0] == 0x4d && d[1] == 0x4d
  {
  }

  /**
   A load gets as far as the maker note exactly when IFD 0 can be reached and has a link behind it, of whatever value.
   */
  lemma {:induction false} FinishedExactly(order: ByteOrder, b: bytes, table: seq<TagTable.Row>, ignoreUnknown: bool)
    requires TagTable.ValidTable(table) && FindExif(b).Some?
    ensures var d := Capped(FindExif(b).value);
      LoadFile(order, FRESH, b, table, ignoreUnknown).complete <==>
        DeclaredOrder(d).Some? && LinkThere(Input(d, DeclaredOrder(d).value, table, ignoreUnknown))
  {
    hide FindExif, Capped, LoadContent, GetShort, GetLong, TagTable.ValidTable;
  }

  /** The fixed number and IFD 0 are there, and so are four bytes behind it. */
  predicate LinkThere(x: Input)
  {
    && |x.d| >= 8 && GetShort(x.d, 2, x.order) == 42
    && var first := GetLong(x.d, 4, x.order);
       first + 2 <= |x.d| && first + 2 + 12 * GetShort(x.d, first, x.order) + 4 <= |x.d|
  }

  /** The guard lets a cost of up to 170 through. */
  lemma {:induction false} GuardExactly(st: State, ifd: Ifd, x: Input, at: nat, path: seq<nat>)
    requires ValidInput(x) && PathCost(path) > 170
    ensures LoadContent(st, ifd, x, at, path) == st
  {
    hide PathCost, TagTable.ValidTable;
  }

  /** Where unknown tags are to be ignored, every entry of a walk has a name in its directory. */
  lemma {:induction false} UnknownIgnored(x: Input, ifd: Ifd, at: nat, k: nat, j: nat)
    requires ValidInput(x) && at + 12 * k <= |x.d| && x.ignoreUnknown && j < |Gather(x, ifd, at, k)|
    ensures TagTable.Named(x.table, Gather(x, ifd, at, k)[j].tag, ifd)
    decreases k
  {
    hide LoadEntry, TagTable.ValidTable, TagTable.Named, GetShort;
    if k > 0 {
      var es := Gather(x, ifd, at, k - 1);
      if j < |es| {
        UnknownIgnored(x, ifd, at, k - 1, j);
      } else {
        TagOfRecord(x, at + 12 * (k - 1));
      }
    }
  }

  lemma {:induction false} TagOfRecord(x: Input, pos: nat)
    requires pos + 12 <= |x.d|
    ensures LoadEntry(x, pos).Some? ==> LoadEntry(x, pos).value.e.tag == GetShort(x.d, pos, x.order)
  {
    hide GetShort, GetLong;
  }

  /**
   In a directory below another a special record whose field does not lie inside the data ends the walk; at the top it
   is passed over.
   */
  lemma {:induction false} BogusPointer(x: Input, v: Visit, k: nat)
    requires k < v.n && v.at + 2 + 12 * v.n <= |x.d| && (forall j :: 0 <= j < |v.path| ==> v.path[j] > 0)
    requires GetShort(x.d, v.at + 2 + 12 * k, x.order) in {0x8769, 0x8825, 0xa005, 0x201, 0x202}
    requires GetLong(x.d, v.at + 2 + 12 * k + 8, x.order) >= |x.d|
    ensures v.path != [] ==> WalkEnd(x, v, 0) <= k
    ensures v.path == [] ==> WalkEnd(x, v, 0) == v.n
  {
    hide GetShort, GetLong;
    if v.path != [] {
      CostsSomething(v.path);
      EndsBy(x, v, 0, k);
    } else {
      EndsNever(x, v, 0);
    }
  }

  lemma {:induction false} CostsSomething(path: seq<nat>)
    requires path != [] && path[|path| - 1] > 0
    ensures PathCost(path) > 0
  {
    hide LevelCost;
    ExifCostPositive(path[|path| - 1]);
  }

  lemma {:induction false} ExifCostPositive(n: nat)
    requires n > 0
    ensures LevelCost(n) > 0
  {
    if CostFrom(n as real + 0.1, 0, 1.0) == 0 {
      FromAtLeast(n as real + 0.1, 1, 1.1);
    }
  }

  lemma {:induction false} FromAtLeast(y: real, from: nat, p: real)
    requires p >= 1.0
    ensures CostFrom(y, from, p) >= from
    decreases if p >= y then 0.0 else 10.0 * (y - p) + 1.0
  {
    if p < y {
      FromAtLeast(y, from + 1, p * 1.1);
    }
  }

  lemma {:induction false} EndsBy(x: Input, v: Visit, i: nat, k: nat)
    requires i <= k < v.n && v.at + 2 + 12 * v.n <= |x.d| && Stops(x, v, k)
    ensures WalkEnd(x, v, i) <= k
    decreases k - i
  {
    hide Stops;
    if i < k && !Stops(x, v, i) {
      EndsBy(x, v, i + 1, k);
    }
  }

  lemma {:induction false} EndsNever(x: Input, v: Visit, i: nat)
    requires i <= v.n && v.at + 2 + 12 * v.n <= |x.d| && v.path == []
    ensures WalkEnd(x, v, i) == v.n
    decreases v.n - i
  {
    hide GetShort, GetLong;
    if i < v.n {
      assert PathCost(v.path) == 0;
      EndsNever(x, v, i + 1);
    }
  }

  /** What is written of an entry's value: all its bytes, unless there are more than 65536 components. */
  lemma {:induction false} PayloadExactly(e: Entry)
    requires FormatSize(e.format) * e.components <= |e.data|
    ensures e.components <= 65536 ==> Payload(e) == e.data[..FormatSize(e.format) * e.components]
    ensures e.components > 65536 ==> Payload(e) == []
  {
    ValueBytesIsProduct(e.format, e.components);
  }
}
