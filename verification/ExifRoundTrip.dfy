/** Loading a saved file gives the model back. */
module ExifRoundTrip {
  import opened Bytes
  import opened Tiff
  import opened ExifTypes
  import opened ExifLayout
  import opened ExifLoad
  import opened ExifWalk
  import opened ExifSorted
  import opened ExifDirectories
  import opened ExifPositions
  import opened ExifCost
  import MakerNote
  import TagTable

  /** A directory of the model, as it lies in the saved file. */
  ghost function DirOf(m: Model, i: Ifd): Dir { Dir(Start(m, i), Sorted(DirItems(m, i))) }

  ghost function DirsOf(m: Model): Dirs
  {
    Dirs(DirOf(m, Ifd0), DirOf(m, ExifIfd), DirOf(m, InteropIfd), DirOf(m, GpsIfd), DirOf(m, Ifd1))
  }

  /** The loader's view of the saved file, whatever may follow it. */
  ghost predicate Views(x: Input, m: Model)
  {
    && x.order == m.order && TagTable.ValidTable(x.table)
    && 14 <= |FileOf(m)| <= 0xfffe && |x.d| <= MAX_DATA && LiesAt(x.d, 0, FileOf(m)[6..])
  }

  /** `x` is what the loader looks at when it is given `f`, which starts with the saved file. */
  ghost predicate ViewOf(x: Input, m: Model, f: bytes)
  {
    && x.order == m.order && TagTable.ValidTable(x.table)
    && 14 <= |FileOf(m)| <= 0xfffe && LiesAt(f, 0, FileOf(m)) && x.d == Capped(f)
  }

  lemma {:induction false} ViewOfViews(x: Input, m: Model, f: bytes)
    requires ViewOf(x, m, f)
    ensures Views(x, m) && ValidInput(x)
  {
    hide FileOf, TagTable.ValidTable;
    var g := FileOf(m)[6..];
    forall k | 0 <= k < |g| ensures x.d[0 + k] == g[k] {
      assert f[0 + (6 + k)] == FileOf(m)[6 + k];
    }
  }

  /** What lies in the file lies in the view. */
  lemma {:induction false} InView(x: Input, m: Model, p: nat, y: bytes)
    requires Views(x, m) && LiesAt(FileOf(m), 6 + p, y)
    ensures LiesAt(x.d, p, y)
  {
    hide FileOf, LiesAt, TagTable.ValidTable;
    AfterHeader(FileOf(m), p, y);
    LiesWithin(x.d, 0, FileOf(m)[6..], p, y);
  }

  /** The conditions of the round trip. */
  ghost predicate Savable(x: Input, m: Model)
    requires ValidInput(x)
  {
    DirSavable(x, m, Ifd0) && DirSavable(x, m, ExifIfd) && DirSavable(x, m, InteropIfd) && DirSavable(x, m, GpsIfd)
      && DirSavable(x, m, Ifd1)
  }

  lemma {:induction false} ViewIsValid(x: Input, m: Model)
    requires Views(x, m)
    ensures ValidInput(x)
  {
    hide FileOf, TagTable.ValidTable;
  }

  /** Every section is where the loader will look for it. */
  lemma {:induction false} SectionInView(x: Input, m: Model, i: Ifd)
    requires Views(x, m)
    ensures LiesAt(x.d, Start(m, i), Section(m, i)) && End(m, i) <= |x.d|
  {
    hide FileOf, LiesAt, Section, Start, End, Present, TagTable.ValidTable;
    FileParts(m);
    assert SectionPlaced(m, FileOf(m), i);
    InView(x, m, Start(m, i), Section(m, i));
    SectionLength(m, i);
    WithinData(x.d, Start(m, i), Section(m, i));
  }

  lemma {:induction false} ThumbInView(x: Input, m: Model)
    requires Views(x, m)
    ensures LiesAt(x.d, End(m, Ifd1), m.thumb) && End(m, Ifd1) + |m.thumb| <= |x.d|
  {
    hide LiesAt, Section, Start, End, Present, FileHeader, TagTable.ValidTable, FileOf;
    FileParts(m);
    InView(x, m, End(m, Ifd1), m.thumb);
    WithinData(x.d, End(m, Ifd1), m.thumb);
  }

  /** A directory that is present and fits starts inside the data. */
  lemma {:induction false} StartsInside(x: Input, m: Model, i: Ifd)
    requires Views(x, m) && Present(m.contents, m.thumb, i)
    ensures 8 <= Start(m, i) && Start(m, i) + 6 + 12 * Count(m.contents, m.thumb, i) <= |x.d|
  {
    hide FileOf, LiesAt, Section, Present, EntryValues, Count, TagTable.ValidTable;
    SectionInView(x, m, i);
    assert Start(m, i) >= 8 by { StartsLate(m, i); }
  }

  lemma {:induction false} StartsLate(m: Model, i: Ifd)
    ensures Start(m, i) >= 8 && End(m, i) >= Start(m, i)
  {
    hide EntryValues, Count, Present;
  }

  // ---- Pointers ----

  /** A special record of a directory is one of its extra records. */
  lemma {:induction false} SpecialRecord(x: Input, m: Model, i: Ifd, k: nat) returns (e: nat)
    requires ValidInput(x) && DirSavable(x, m, i) && InPlace(x, m, i)
    requires k < |Sorted(DirItems(m, i))| && Special(Sorted(DirItems(m, i))[k].slot.tag)
    ensures e < |ExtraItems(m, i)| && Sorted(DirItems(m, i))[k] == ExtraItems(m, i)[e]
    ensures LiesAt(x.d, Start(m, i) + 2 + 12 * k, Record(ExtraItems(m, i)[e], x.order))
  {
    hide DirItems, ExtraItems, EntryItem, Special, ValidInput, Sorted, LiesAt, Section, Start, Record, Present;
    hide DirSavable;
    RecordAt(m, x.d, i, Sorted(DirItems(m, i)), k);
    var j := Origin(DirItems(m, i), k);
    DirItemIs(m, i, j);
    e := if j < |m.contents.Of(i)| then 0 else j - |m.contents.Of(i)|;
    if j < |m.contents.Of(i)| {
      EntryItemTag(m, i, j);
      SavableTag(x, m, i, j);
    }
  }

  /** A special tag occurs in the sorted directory exactly when an extra record has it. */
  lemma {:induction false} SeenExtra(x: Input, m: Model, i: Ifd, tag: int)
    requires ValidInput(x) && DirSavable(x, m, i) && Special(tag)
    ensures var items := Sorted(DirItems(m, i));
      Seen(items, tag, |items|) <==> exists e :: 0 <= e < |ExtraItems(m, i)| && ExtraItems(m, i)[e].slot.tag == tag
  {
    hide DirItems, ExtraItems, EntryItem, Special, ValidInput, Sorted, DirSavable;
    var items := Sorted(DirItems(m, i));
    var n := |m.contents.Of(i)|;
    if Seen(items, tag, |items|) {
      var k :| 0 <= k < |items| && items[k].slot.tag == tag;
      var j := Origin(DirItems(m, i), k);
      DirItemIs(m, i, j);
      if j < n {
        EntryItemTag(m, i, j);
        SavableTag(x, m, i, j);
      } else {
        assert ExtraItems(m, i)[j - n].slot.tag == tag;
      }
    }
    if e :| 0 <= e < |ExtraItems(m, i)| && ExtraItems(m, i)[e].slot.tag == tag {
      ItemCount(m, i);
      DirItemIs(m, i, n + e);
      var k := Image(DirItems(m, i), n + e);
      assert items[k].slot.tag == tag;
    }
  }

  lemma {:induction false} ItemCount(m: Model, i: Ifd)
    ensures |DirItems(m, i)| == |m.contents.Of(i)| + |ExtraItems(m, i)|
  {
    hide ExtraItems, Items, EntrySlots, ValueStart;
  }

  lemma {:induction false} NoSpecials(x: Input, m: Model, i: Ifd)
    requires ValidInput(x) && DirSavable(x, m, i) && ExtraItems(m, i) == []
    ensures var items := Sorted(DirItems(m, i)); forall k :: 0 <= k < |items| ==> !Special(items[k].slot.tag)
  {
    hide DirItems, ExtraItems, Special, ValidInput, Sorted, DirSavable;
    var items := Sorted(DirItems(m, i));
    forall k | 0 <= k < |items| ensures !Special(items[k].slot.tag) {
      if Special(items[k].slot.tag) {
        SeenAll(items, items[k].slot.tag, k);
        SeenExtra(x, m, i, items[k].slot.tag);
      }
    }
  }

  // ---- The five directories ----

  lemma {:induction false} DirInView(x: Input, m: Model, i: Ifd)
    requires Views(x, m) && ValidInput(x) && DirSavable(x, m, i) && Present(m.contents, m.thumb, i)
    ensures DirPlaced(x, i, Start(m, i), Sorted(DirItems(m, i))) && PointersPositive(Sorted(DirItems(m, i)))
  {
    hide DirItems, ValidInput, Sorted, LiesAt, Section, Start, DirSavable, FileOf, DirPlaced, PointersPositive, Present;
    SectionInView(x, m, i);
    DirInPlace(x, m, i, Sorted(DirItems(m, i)));
    DirPositive(m, i);
  }

  lemma {:induction false} LeafInPlace(x: Input, m: Model, i: Ifd)
    requires Views(x, m) && ValidInput(x) && DirSavable(x, m, i) && Present(m.contents, m.thumb, i)
    requires i.GpsIfd? || i.InteropIfd?
    ensures DirPlaced(x, i, Start(m, i), Sorted(DirItems(m, i))) && PointersPositive(Sorted(DirItems(m, i)))
    ensures var items := Sorted(DirItems(m, i)); forall k :: 0 <= k < |items| ==> !Special(items[k].slot.tag)
  {
    hide DirItems, Special, ValidInput, Sorted, Start, DirSavable, DirPlaced, PointersPositive, Present, Views;
    DirInView(x, m, i);
    NoSpecials(x, m, i);
  }

  lemma {:induction false} PointerRecord(x: Input, tag: int, v: nat, pos: nat)
    requires v < |x.d| && 0 <= tag < U16 && Special(tag)
    requires LiesAt(x.d, pos, Record(PointerItem(tag, v, x.order), x.order))
    ensures PointerPlaced(x, tag, v, pos)
  {
    hide Record, LiesAt, Special;
  }

  lemma {:induction false} ExifPointerInPlace(x: Input, m: Model, k: nat)
    requires Views(x, m) && ValidInput(x) && DirSavable(x, m, ExifIfd) && Present(m.contents, m.thumb, ExifIfd)
    requires k < |Sorted(DirItems(m, ExifIfd))| && Special(Sorted(DirItems(m, ExifIfd))[k].slot.tag)
    ensures Sorted(DirItems(m, ExifIfd))[k].slot.tag == TAG_INTEROP_POINTER
    ensures PointerPlaced(x, TAG_INTEROP_POINTER, Start(m, InteropIfd), Start(m, ExifIfd) + 2 + 12 * k)
  {
    hide DirItems, ValidInput, Sorted, LiesAt, Section, Start, End, Count, DirSavable, FileOf, Record, PointerPlaced;
    hide Special, TagTable.ValidTable;
    SectionInView(x, m, ExifIfd);
    var e := SpecialRecord(x, m, ExifIfd, k);
    StartsInside(x, m, InteropIfd);
    assert Special(TAG_INTEROP_POINTER) by { PointersAreSpecial(); }
    PointerRecord(x, TAG_INTEROP_POINTER, Start(m, InteropIfd), Start(m, ExifIfd) + 2 + 12 * k);
  }

  lemma {:induction false} PointersAreSpecial()
    ensures Special(TAG_EXIF_POINTER) && Special(TAG_GPS_POINTER) && Special(TAG_INTEROP_POINTER)
    ensures Special(TAG_THUMBNAIL) && Special(TAG_THUMBNAIL_LENGTH)
  {
  }

  lemma {:induction false} SeenInterop(x: Input, m: Model)
    requires ValidInput(x) && DirSavable(x, m, ExifIfd)
    ensures var items := Sorted(DirItems(m, ExifIfd)); Seen(items, TAG_INTEROP_POINTER, |items|) <==>
      Present(m.contents, m.thumb, InteropIfd)
  {
    hide DirItems, ValidInput, Sorted, Start, DirSavable, Seen, Special, Present;
    PointersAreSpecial();
    SeenExtra(x, m, ExifIfd, TAG_INTEROP_POINTER);
    if Present(m.contents, m.thumb, InteropIfd) {
      assert ExtraItems(m, ExifIfd)[0].slot.tag == TAG_INTEROP_POINTER;
    }
  }

  lemma {:induction false} ExifInPlace(x: Input, m: Model)
    requires Views(x, m) && ValidInput(x) && Savable(x, m) && Present(m.contents, m.thumb, ExifIfd)
    ensures ExifPlaced(x, Start(m, ExifIfd), Sorted(DirItems(m, ExifIfd)), Sorted(DirItems(m, InteropIfd)),
      Start(m, InteropIfd))
  {
    hide DirItems, ValidInput, Sorted, Start, DirSavable, DirPlaced, PointerPlaced, Special, PointersPositive, Seen;
    hide Present, Views;
    var items := Sorted(DirItems(m, ExifIfd));
    DirInView(x, m, ExifIfd);
    DirPositive(m, InteropIfd);
    SeenInterop(x, m);
    forall k | 0 <= k < |items| && Special(items[k].slot.tag)
      ensures items[k].slot.tag == TAG_INTEROP_POINTER
      ensures PointerPlaced(x, TAG_INTEROP_POINTER, Start(m, InteropIfd), Start(m, ExifIfd) + 2 + 12 * k)
    {
      ExifPointerInPlace(x, m, k);
    }
    if Present(m.contents, m.thumb, InteropIfd) {
      LeafInPlace(x, m, InteropIfd);
    }
  }

  lemma {:induction false} Ifd0PointerInPlace(x: Input, m: Model, k: nat)
    requires Views(x, m) && ValidInput(x) && DirSavable(x, m, Ifd0)
    requires k < |Sorted(DirItems(m, Ifd0))| && Special(Sorted(DirItems(m, Ifd0))[k].slot.tag)
    ensures Ifd0Pointer(x, DirsOf(m), k)
  {
    hide DirItems, ValidInput, Sorted, LiesAt, Section, Start, End, DirSavable, FileOf, Record, PointerPlaced, Special;
    hide TagTable.ValidTable, Count;
    SectionInView(x, m, Ifd0);
    var e := SpecialRecord(x, m, Ifd0, k);
    PointersAreSpecial();
    var item := ExtraItems(m, Ifd0)[e];
    if item.slot.tag == TAG_EXIF_POINTER {
      StartsInside(x, m, ExifIfd);
      PointerRecord(x, TAG_EXIF_POINTER, Start(m, ExifIfd), Start(m, Ifd0) + 2 + 12 * k);
    } else {
      StartsInside(x, m, GpsIfd);
      PointerRecord(x, TAG_GPS_POINTER, Start(m, GpsIfd), Start(m, Ifd0) + 2 + 12 * k);
    }
  }

  lemma {:induction false} SeenSubs(x: Input, m: Model)
    requires ValidInput(x) && DirSavable(x, m, Ifd0)
    ensures var items := Sorted(DirItems(m, Ifd0)); Seen(items, TAG_EXIF_POINTER, |items|) <==>
      Present(m.contents, m.thumb, ExifIfd)
    ensures var items := Sorted(DirItems(m, Ifd0)); Seen(items, TAG_GPS_POINTER, |items|) <==>
      Present(m.contents, m.thumb, GpsIfd)
  {
    hide DirItems, ValidInput, Sorted, Start, DirSavable, Seen, Special, Present;
    PointersAreSpecial();
    SeenExtra(x, m, Ifd0, TAG_EXIF_POINTER);
    SeenExtra(x, m, Ifd0, TAG_GPS_POINTER);
    var xs := ExtraItems(m, Ifd0);
    if Present(m.contents, m.thumb, ExifIfd) {
      assert xs[0].slot.tag == TAG_EXIF_POINTER;
    }
    if Present(m.contents, m.thumb, GpsIfd) {
      assert xs[|xs| - 1].slot.tag == TAG_GPS_POINTER;
    }
  }

  lemma {:induction false} Ifd0InPlace(x: Input, m: Model)
    requires Views(x, m) && ValidInput(x) && Savable(x, m)
    ensures Ifd0Placed(x, DirsOf(m))
  {
    hide DirItems, ValidInput, Sorted, LiesAt, Section, Start, DirSavable, FileOf, DirPlaced, Ifd0Pointer, Special;
    hide PointersPositive, Seen, ExifPlaced;
    var items := Sorted(DirItems(m, Ifd0));
    SectionInView(x, m, Ifd0);
    DirInPlace(x, m, Ifd0, items);
    DirPositive(m, Ifd0);
    DirPositive(m, ExifIfd);
    DirPositive(m, InteropIfd);
    DirPositive(m, GpsIfd);
    DirPositive(m, Ifd1);
    SeenSubs(x, m);
    forall k | 0 <= k < |items| && Special(items[k].slot.tag) ensures Ifd0Pointer(x, DirsOf(m), k) {
      Ifd0PointerInPlace(x, m, k);
    }
    if Seen(items, TAG_EXIF_POINTER, |items|) {
      ExifInPlace(x, m);
    }
    if Seen(items, TAG_GPS_POINTER, |items|) {
      LeafInPlace(x, m, GpsIfd);
    }
  }

  lemma {:induction false} SeenThumbnail(x: Input, m: Model)
    requires ValidInput(x) && DirSavable(x, m, Ifd1)
    ensures var items := Sorted(DirItems(m, Ifd1)); Seen(items, TAG_THUMBNAIL, |items|) <==> m.thumb != []
    ensures var items := Sorted(DirItems(m, Ifd1)); Seen(items, TAG_THUMBNAIL_LENGTH, |items|) <==> m.thumb != []
  {
    hide DirItems, ValidInput, Sorted, End, DirSavable, Seen, Special;
    PointersAreSpecial();
    SeenExtra(x, m, Ifd1, TAG_THUMBNAIL);
    SeenExtra(x, m, Ifd1, TAG_THUMBNAIL_LENGTH);
    var xs := ExtraItems(m, Ifd1);
    if m.thumb != [] {
      assert xs[0].slot.tag == TAG_THUMBNAIL;
      assert xs[1].slot.tag == TAG_THUMBNAIL_LENGTH;
    }
  }

  lemma {:induction false} Ifd1PointerInPlace(x: Input, m: Model, k: nat)
    requires Views(x, m) && ValidInput(x) && DirSavable(x, m, Ifd1) && Present(m.contents, m.thumb, Ifd1)
    requires k < |Sorted(DirItems(m, Ifd1))| && Special(Sorted(DirItems(m, Ifd1))[k].slot.tag)
    ensures Ifd1Pointer(x, Start(m, Ifd1), Sorted(DirItems(m, Ifd1)), k, End(m, Ifd1), |m.thumb|)
  {
    hide DirItems, ValidInput, Sorted, LiesAt, Section, Start, End, DirSavable, FileOf, Record, PointerPlaced, Special;
    hide Present;
    SectionInView(x, m, Ifd1);
    ThumbInView(x, m);
    StartsLate(m, Ifd1);
    var e := SpecialRecord(x, m, Ifd1, k);
    PointersAreSpecial();
    var item := ExtraItems(m, Ifd1)[e];
    if item.slot.tag == TAG_THUMBNAIL {
      PointerRecord(x, TAG_THUMBNAIL, End(m, Ifd1), Start(m, Ifd1) + 2 + 12 * k);
    } else {
      PointerRecord(x, TAG_THUMBNAIL_LENGTH, |m.thumb|, Start(m, Ifd1) + 2 + 12 * k);
    }
  }

  lemma {:induction false} Ifd1InPlace(x: Input, m: Model)
    requires Views(x, m) && ValidInput(x) && DirSavable(x, m, Ifd1) && Present(m.contents, m.thumb, Ifd1)
    ensures Ifd1Placed(x, Start(m, Ifd1), Sorted(DirItems(m, Ifd1)), End(m, Ifd1), m.thumb)
  {
    hide DirItems, ValidInput, Sorted, LiesAt, Section, Start, End, DirSavable, FileOf, DirPlaced, Ifd1Pointer, Special;
    hide PointersPositive, Seen, Present;
    var items := Sorted(DirItems(m, Ifd1));
    SectionInView(x, m, Ifd1);
    ThumbInView(x, m);
    StartsLate(m, Ifd1);
    DirInPlace(x, m, Ifd1, items);
    DirPositive(m, Ifd1);
    SeenThumbnail(x, m);
    forall k | 0 <= k < |items| && Special(items[k].slot.tag)
      ensures Ifd1Pointer(x, Start(m, Ifd1), items, k, End(m, Ifd1), |m.thumb|) {
      Ifd1PointerInPlace(x, m, k);
    }
  }

  // ---- The guard ----

  lemma {:induction false} CountOf(m: Model, i: Ifd)
    ensures |Sorted(DirItems(m, i))| == Count(m.contents, m.thumb, i)
  {
    hide DirItems, Sorted, Count;
  }

  lemma {:induction false} AbsentIsEmpty(m: Model, i: Ifd)
    requires !Present(m.contents, m.thumb, i)
    ensures Count(m.contents, m.thumb, i) == 0 && m.contents.Of(i) == []
  {
  }

  /** The recursion-cost guard never stops the loading of a saved file. */
  lemma {:induction false} GuardPasses(x: Input, m: Model)
    requires Views(x, m)
    ensures PathCost([|Sorted(DirItems(m, Ifd0))|]) <= 168
    ensures PathCost([|Sorted(DirItems(m, Ifd0))|] + [|Sorted(DirItems(m, ExifIfd))|]) <= 168
  {
    hide DirItems, Sorted, Start, End, FileOf, Count, PathCost, LevelCost, Present, TagTable.ValidTable;
    var a, b := |Sorted(DirItems(m, Ifd0))|, |Sorted(DirItems(m, ExifIfd))|;
    CountOf(m, Ifd0);
    CountOf(m, ExifIfd);
    ViewIsValid(x, m);
    assert a + b <= 5460 by {
      assert Present(m.contents, m.thumb, Ifd0) by { Ifd0Present(m); }
      StartsInside(x, m, Ifd0);
      if Present(m.contents, m.thumb, ExifIfd) {
        StartsInside(x, m, ExifIfd);
        EndOfIfd0(m);
      } else {
        AbsentIsEmpty(m, ExifIfd);
      }
    }
    PairCost(a, 0);
    PairCost(a, b);
    PathCostOne(a);
    PathCostTwo(a, b);
  }

  lemma {:induction false} Ifd0Present(m: Model)
    ensures Present(m.contents, m.thumb, Ifd0)
  {
  }

  lemma {:induction false} EndOfIfd0(m: Model)
    ensures Start(m, ExifIfd) >= 8 + 6 + 12 * Count(m.contents, m.thumb, Ifd0)
  {
    hide EntryValues, Count;
  }

  // ---- The whole file ----

  /** The state a load of the saved file leaves behind. */
  ghost function Reloaded(m: Model): State
    requires Positive(DirsOf(m))
  {
    var st := Ifd0Result(FRESH, DirsOf(m));
    if Present(m.contents, m.thumb, Ifd1)
      then Ifd1Result(st, Sorted(DirItems(m, Ifd1)), Start(m, Ifd1), End(m, Ifd1), m.thumb) else st
  }

  lemma {:induction false} HeaderOfFile(m: Model)
    ensures LiesAt(FileOf(m), 0, FileHeader(m.order))
  {
    hide *;
    FileParts(m);
  }

  lemma {:induction false} HeaderInView(x: Input, m: Model)
    requires Views(x, m)
    ensures LiesAt(x.d, 0, MakerNote.OrderMark(m.order)) && LiesAt(x.d, 2, EncShort(0x2a, m.order))
    ensures LiesAt(x.d, 4, EncLong(8, m.order))
  {
    hide FileOf, TagTable.ValidTable, LiesAt, EncShort, EncLong;
    HeaderOfFile(m);
    FourBlocks(FileOf(m), 0, EXIF_HEADER, MakerNote.OrderMark(m.order), EncShort(0x2a, m.order), EncLong(8, m.order));
    InView(x, m, 0, MakerNote.OrderMark(m.order));
    InView(x, m, 2, EncShort(0x2a, m.order));
    InView(x, m, 4, EncLong(8, m.order));
  }

  lemma {:induction false} OrderRead(d: bytes, order: ByteOrder)
    requires |d| >= 8 && LiesAt(d, 0, MakerNote.OrderMark(order))
    ensures DeclaredOrder(d) == Some(order)
  {
    var mark := MakerNote.OrderMark(order);
    assert d[0 + 0] == mark[0] && d[0 + 1] == mark[1];
  }

  lemma {:induction false} HeaderRead(x: Input, m: Model)
    requires Views(x, m)
    ensures |x.d| >= 8 && DeclaredOrder(x.d) == Some(m.order) && GetShort(x.d, 2, x.order) == 0x2a
    ensures GetLong(x.d, 4, x.order) == 8
  {
    hide FileOf, TagTable.ValidTable, LiesAt, DeclaredOrder, GetShort, GetLong, EncShort, EncLong, MakerNote.OrderMark;
    HeaderInView(x, m);
    WithinData(x.d, 4, EncLong(8, m.order));
    OrderRead(x.d, m.order);
    ShortAt(x.d, 2, 0x2a, m.order);
    LongAt(x.d, 4, 8, m.order);
  }

  lemma {:induction false} FileFound(m: Model, f: bytes)
    requires 14 <= |FileOf(m)| && LiesAt(f, 0, FileOf(m))
    ensures FindExif(f) == Some(f) && |f| >= 14
  {
    hide FileOf, LiesAt, EncShort, EncLong, MakerNote.OrderMark;
    HeaderOfFile(m);
    LiesWithin(f, 0, FileOf(m), 0, FileHeader(m.order));
    FourBlocks(f, 0, EXIF_HEADER, MakerNote.OrderMark(m.order), EncShort(0x2a, m.order), EncLong(8, m.order));
  }

  lemma {:induction false} LinkInside(x: Input, m: Model)
    requires Views(x, m)
    ensures Next(m, Ifd0) <= |x.d| && (Next(m, Ifd0) == 0 <==> !Present(m.contents, m.thumb, Ifd1))
  {
    hide FileOf, Section, LiesAt, End, Start, Present, TagTable.ValidTable;
    SectionInView(x, m, Ifd1);
    StartsLate(m, Ifd1);
  }

  lemma {:induction false} LinkInPlace(x: Input, m: Model, n: nat)
    requires Views(x, m) && n == |Sorted(DirItems(m, Ifd0))|
    ensures 8 + 2 + 12 * n + 4 <= |x.d| && LiesAt(x.d, 8, EncShort(n, m.order))
    ensures LiesAt(x.d, 8 + 2 + 12 * n, EncLong(Next(m, Ifd0), m.order))
  {
    hide FileOf, Section, LiesAt, Sorted, DirItems, End, Start, Count, Present, Next, TagTable.ValidTable, Records;
    hide EntryValues;
    Ifd0Present(m);
    SectionInView(x, m, Ifd0);
    DirectoryParts(m, x.d, Ifd0, Sorted(DirItems(m, Ifd0)));
    ChainOfStarts(m);
  }

  /** After IFD 0 the loader finds its entry count and the link to IFD 1. */
  lemma {:induction false} LinkRead(x: Input, m: Model)
    requires Views(x, m)
    ensures 8 + 2 <= |x.d| && var n := GetShort(x.d, 8, x.order);
      8 + 2 + 12 * n + 4 <= |x.d| && GetLong(x.d, 8 + 2 + 12 * n, x.order) == Next(m, Ifd0) && Next(m, Ifd0) <= |x.d|
    ensures Next(m, Ifd0) == 0 <==> !Present(m.contents, m.thumb, Ifd1)
  {
    hide FileOf, LiesAt, Sorted, DirItems, Next, Present, TagTable.ValidTable, GetShort, GetLong;
    var n := |Sorted(DirItems(m, Ifd0))|;
    LinkInPlace(x, m, n);
    LinkInside(x, m);
    ShortAt(x.d, 8, n, x.order);
    LongAt(x.d, 8 + 2 + 12 * n, Next(m, Ifd0), x.order);
  }

  lemma {:induction false} Ifd0KeepsIfd1(m: Model)
    requires Positive(DirsOf(m))
    ensures Ifd0Result(FRESH, DirsOf(m)).contents.ifd1 == []
  {
    hide DirItems, Sorted, Start, Kept, NoteAt, Seen;
  }

  lemma {:induction false} LoadBothChains(x: Input, m: Model)
    requires Views(x, m) && ValidInput(x) && Savable(x, m)
    ensures Positive(DirsOf(m)) && |x.d| >= 8 && LoadBlock(FRESH, x) == Result(m.order, Reloaded(m), true)
  {
    hide LoadContent, Ifd0Result, Ifd1Result, DirItems, Sorted, Start, End, FileOf, Next, ValidInput, Savable, Present;
    hide GetShort, GetLong, DirsOf, PathCost;
    HeaderRead(x, m);
    Ifd0InPlace(x, m);
    FreshForDirs(x, m);
    LoadIfd0(FRESH, x, DirsOf(m));
    LinkRead(x, m);
    ChainOfStarts(m);
    assert DirsOf(m).ifd0.at == 8 by { FirstDir(m); }
    if Present(m.contents, m.thumb, Ifd1) {
      assert DirSavable(x, m, Ifd1) by { SavableIfd1(x, m); }
      Ifd1InPlace(x, m);
      Ifd0KeepsIfd1(m);
      LoadIfd1(Ifd0Result(FRESH, DirsOf(m)), x, Start(m, Ifd1), Sorted(DirItems(m, Ifd1)), End(m, Ifd1), m.thumb);
      NextIsIfd1(m);
    }
  }

  lemma {:induction false} SavableIfd1(x: Input, m: Model)
    requires ValidInput(x) && Savable(x, m)
    ensures DirSavable(x, m, Ifd1)
  {
  }

  lemma {:induction false} FirstDir(m: Model)
    ensures DirsOf(m).ifd0.at == 8
  {
    ChainOfStarts(m);
  }

  lemma {:induction false} NextIsIfd1(m: Model)
    requires Present(m.contents, m.thumb, Ifd1)
    ensures Next(m, Ifd0) == Start(m, Ifd1)
  {
  }

  lemma {:induction false} FreshForDirs(x: Input, m: Model)
    requires Views(x, m)
    ensures FreshFor(FRESH, DirsOf(m))
  {
    hide DirItems, Sorted, Start, PathCost;
    GuardPasses(x, m);
  }

  /** Loading the saved file, and whatever follows it, into a fresh object. */
  lemma {:induction false} LoadSaved(order: ByteOrder, x: Input, m: Model, f: bytes)
    requires ViewOf(x, m, f) && ValidInput(x) && Savable(x, m)
    ensures Positive(DirsOf(m))
    ensures LoadFile(order, FRESH, f, x.table, x.ignoreUnknown) == Result(m.order, Reloaded(m), true)
  {
    hide LoadBlock, FileOf, ValidInput, Savable, DirsOf, Positive, Reloaded, LiesAt, Views;
    ViewOfViews(x, m, f);
    FileFound(m, f);
    HeaderRead(x, m);
    LoadBothChains(x, m);
    assert Input(x.d, m.order, x.table, x.ignoreUnknown) == x;
  }
}
