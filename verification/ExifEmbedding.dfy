/** A maker note inside the file: the offset it is told is the place where it lies and where it is looked for. */
module ExifEmbedding {
  import opened Bytes
  import opened Tiff
  import opened ExifTypes
  import opened ExifLayout
  import opened ExifEffects
  import opened ExifLoad
  import opened ExifSorted
  import opened ExifDirectories
  import opened ExifPositions
  import opened ExifRoundTrip
  import opened ExifTheorems
  import MakerNote
  import MakerNoteRoundTrip
  import TagTable

  // ---- What an entry is told ----

  /** The entry is made effective for the very place its item names. */
  lemma {:induction false} EffectiveFor(m: Model, i: Ifd, j: nat)
    requires j < |m.contents.Of(i)|
    ensures EntryItem(m, i, j).ptr >= 0
    ensures SavedEntries(m, i)[j] == Effective(m, m.contents.Of(i)[j], EntryItem(m, i, j).ptr)
  {
    hide Effective, Values, ValueStart, Effs;
    EffectiveAt(m, m.contents.Of(i), ValueStart(m, i), j);
  }

  // ---- What the loader remembers ----

  /** Entry `j` of directory `i` is the only one with the maker-note tag. */
  ghost predicate OnlyNote(m: Model, i: Ifd, j: nat)
  {
    && j < |m.contents.Of(i)| && m.contents.Of(i)[j].tag == TAG_MAKER_NOTE
    && forall i' :: i' != i ==> !HasTag(m.contents.Of(i'), TAG_MAKER_NOTE)
  }

  lemma {:induction false} NoteAtItem(items: seq<Item>, at: nat, n: nat, base: nat, k: nat)
    requires k < n <= |items| && items[k].slot.tag == TAG_MAKER_NOTE && |items[k].slot.payload| > 4
    requires forall j :: 0 <= j < n && j != k ==> items[j].slot.tag != TAG_MAKER_NOTE
    ensures NoteAt(items, at, n, base) == items[k].ptr
  {
    if k < n - 1 {
      NoteAtItem(items, at, n - 1, base, k);
    }
  }

  /** A directory with the maker note makes the loader remember its place. */
  lemma {:induction false} DirNote(x: Input, m: Model, i: Ifd, j: nat, at: nat, base: nat)
    requires ValidInput(x) && DirSavable(x, m, i) && j < |m.contents.Of(i)| && m.contents.Of(i)[j].tag == TAG_MAKER_NOTE
    requires |EntryItem(m, i, j).slot.payload| > 4
    ensures var items := Sorted(DirItems(m, i)); NoteAt(items, at, |items|, base) == EntryItem(m, i, j).ptr
  {
    hide DirItems, Sorted, EntryItem, DirSavable, ValidInput, NoteAt;
    var items := Sorted(DirItems(m, i));
    ItemCount(m, i);
    DirItemIs(m, i, j);
    EntryItemTag(m, i, j);
    DirDistinct(x, m, i);
    SortedStrictly(DirItems(m, i));
    var k := Image(DirItems(m, i), j);
    NoteAtItem(items, at, |items|, base, k);
  }

  lemma {:induction false} DirWithoutNote(x: Input, m: Model, i: Ifd, at: nat, base: nat)
    requires ValidInput(x) && DirSavable(x, m, i) && !HasTag(m.contents.Of(i), TAG_MAKER_NOTE)
    ensures var items := Sorted(DirItems(m, i)); NoteAt(items, at, |items|, base) == base
  {
    hide DirItems, Sorted, EntryItem, DirSavable, ValidInput, NoteAt, ExtraItems;
    var items := Sorted(DirItems(m, i));
    forall k | 0 <= k < |items| ensures items[k].slot.tag != TAG_MAKER_NOTE {
      var j := Origin(DirItems(m, i), k);
      DirItemIs(m, i, j);
      if j < |m.contents.Of(i)| {
        EntryItemTag(m, i, j);
      } else {
        ExtrasSpecial(m, i);
      }
    }
    NoNote(items, at, |items|, base);
  }

  /** What directory `i` makes of the remembered place. */
  ghost function NoteAfter(m: Model, i: Ifd, at: nat, base: int): int
  {
    var items := Sorted(DirItems(m, i));
    if base < 0 then base else NoteAt(items, at, |items|, base)
  }

  lemma {:induction false} PresentWithEntries(m: Model, i: Ifd)
    requires m.contents.Of(i) != []
    ensures Present(m.contents, m.thumb, i)
  {
  }

  lemma {:induction false} ExifPartNote(x: Input, m: Model, st: State, k: nat)
    requires ValidInput(x) && Savable(x, m) && Positive(DirsOf(m)) && k == |Sorted(DirItems(m, Ifd0))|
    ensures ExifPart(st, DirsOf(m), k).mnote ==
      (if Present(m.contents, m.thumb, ExifIfd) then
        var b := NoteAfter(m, ExifIfd, Start(m, ExifIfd) + 2, st.mnote);
        if Present(m.contents, m.thumb, InteropIfd) then NoteAfter(m, InteropIfd, Start(m, InteropIfd) + 2, b) else b
      else st.mnote)
  {
    hide DirItems, Sorted, Start, Kept, NoteAt, DirSavable, Present, Seen, PointersPositive, ValidInput;
    SeenSubs(x, m);
    SeenInterop(x, m);
  }

  /** The place remembered after IFD 0 and all below it. */
  lemma {:induction false} Ifd0Note(x: Input, m: Model, base: int)
    requires ValidInput(x) && Savable(x, m) && Positive(DirsOf(m))
    requires base == ExifPart(Visited(FRESH, Ifd0, Start(m, Ifd0), |Sorted(DirItems(m, Ifd0))|, []), DirsOf(m),
      |Sorted(DirItems(m, Ifd0))|).mnote
    ensures Ifd0Result(FRESH, DirsOf(m)).mnote ==
      NoteAfter(m, Ifd0, Start(m, Ifd0) + 2, if Present(m.contents, m.thumb, GpsIfd)
        then NoteAfter(m, GpsIfd, Start(m, GpsIfd) + 2, base) else base)
  {
    hide DirItems, Sorted, Start, Kept, NoteAt, DirSavable, Present, Seen, PointersPositive, ValidInput, ExifPart;
    SeenSubs(x, m);
  }

  /** What a directory does to the remembered place, when only entry `j` of `i` is a maker note. */
  lemma {:induction false} NoteStep(x: Input, m: Model, i: Ifd, j: nat, d: Ifd, at: nat, base: nat)
    requires ValidInput(x) && Savable(x, m) && OnlyNote(m, i, j) && |EntryItem(m, i, j).slot.payload| > 4
    ensures NoteAfter(m, d, at, base) == if d == i then EntryItem(m, i, j).ptr else base
  {
    hide DirItems, Sorted, NoteAt, ValidInput, EntryItem, HasTag, Savable;
    SavableDir(x, m, d);
    if d == i {
      DirNote(x, m, i, j, at, base);
    } else {
      DirWithoutNote(x, m, d, at, base);
    }
  }

  lemma {:induction false} ExifNote(x: Input, m: Model, i: Ifd, j: nat, st: State, k: nat)
    requires ValidInput(x) && Savable(x, m) && Positive(DirsOf(m)) && k == |Sorted(DirItems(m, Ifd0))|
    requires OnlyNote(m, i, j) && |EntryItem(m, i, j).slot.payload| > 4 && EntryItem(m, i, j).ptr >= 0
    ensures ExifPart(st, DirsOf(m), k).mnote == if i.ExifIfd? || i.InteropIfd? then EntryItem(m, i, j).ptr else st.mnote
  {
    hide DirItems, Sorted, Start, Savable, Present, Positive, ValidInput, ExifPart, EntryItem, NoteAfter, DirsOf;
    ExifPartNote(x, m, st, k);
    PresentWithEntries(m, i);
    InteropNeedsExif(m);
    NoteStep(x, m, i, j, ExifIfd, Start(m, ExifIfd) + 2, st.mnote);
    NoteStep(x, m, i, j, InteropIfd, Start(m, InteropIfd) + 2, if i.ExifIfd? then EntryItem(m, i, j).ptr else st.mnote);
  }

  lemma {:induction false} MainNote(x: Input, m: Model, i: Ifd, j: nat)
    requires ValidInput(x) && Savable(x, m) && Positive(DirsOf(m))
    requires OnlyNote(m, i, j) && |EntryItem(m, i, j).slot.payload| > 4 && EntryItem(m, i, j).ptr >= 0
    ensures Ifd0Result(FRESH, DirsOf(m)).mnote == if i.Ifd1? then 0 else EntryItem(m, i, j).ptr
  {
    hide DirItems, Sorted, Start, Savable, Present, Positive, ValidInput, ExifPart, EntryItem, NoteAfter, Ifd0Result;
    hide DirsOf;
    var n := |Sorted(DirItems(m, Ifd0))|;
    var v := Visited(FRESH, Ifd0, Start(m, Ifd0), n, []);
    var p := EntryItem(m, i, j).ptr;
    ExifNote(x, m, i, j, v, n);
    var b: nat := if i.ExifIfd? || i.InteropIfd? then p else 0;
    Ifd0Note(x, m, b);
    PresentWithEntries(m, i);
    NoteStep(x, m, i, j, GpsIfd, Start(m, GpsIfd) + 2, b);
    NoteStep(x, m, i, j, Ifd0, Start(m, Ifd0) + 2, if i.GpsIfd? then p else b);
  }

  lemma {:induction false} Ifd1Note(m: Model, st: State)
    requires PointersPositive(Sorted(DirItems(m, Ifd1)))
    ensures Ifd1Result(st, Sorted(DirItems(m, Ifd1)), Start(m, Ifd1), End(m, Ifd1), m.thumb).mnote
         == NoteAfter(m, Ifd1, Start(m, Ifd1) + 2, st.mnote)
  {
    hide DirItems, Sorted, Start, End, Kept, NoteAt, Seen, PointersPositive;
  }

  /** The place the loader remembers is that of the only maker note. */
  lemma {:induction false} ReloadedNote(x: Input, m: Model, i: Ifd, j: nat)
    requires ValidInput(x) && Savable(x, m) && Positive(DirsOf(m))
    requires OnlyNote(m, i, j) && |EntryItem(m, i, j).slot.payload| > 4
    ensures Reloaded(m).mnote == EntryItem(m, i, j).ptr
  {
    hide DirItems, Sorted, Start, End, Savable, Present, ValidInput, EntryItem, NoteAfter, Ifd0Result, Ifd1Result;
    hide PointersPositive;
    EffectiveFor(m, i, j);
    MainNote(x, m, i, j);
    PresentWithEntries(m, i);
    var st := Ifd0Result(FRESH, DirsOf(m));
    Ifd1Note(m, st);
    NoteStep(x, m, i, j, Ifd1, Start(m, Ifd1) + 2, st.mnote);
  }

  // ---- The theorems ----

  /** The maker note as it is written: told to lie at `offset`. */
  function NoteAtOffset(m: Model, offset: nat): MakerNote.Note
    requires m.md.Some?
  {
    m.md.value.(offset := offset)
  }

  /** The saved entry holds the note's image. */
  lemma {:induction false} SavedNote(x: Input, m: Model, i: Ifd, j: nat)
    requires ValidInput(x) && DirSavable(x, m, i) && j < |m.contents.Of(i)| && m.contents.Of(i)[j].tag == TAG_MAKER_NOTE
    requires m.md.Some? && !m.keepNote
    ensures EntryItem(m, i, j).ptr >= 0 && !m.md.value.version.Unrecognized?
    ensures EntryItem(m, i, j).slot.payload == MakerNote.Image(NoteAtOffset(m, EntryItem(m, i, j).ptr))
  {
    hide EntryItem, TagTable.ValidTable, TagTable.Named, Special, Effs, ValueStart, MakerNote.Image;
    EffectiveFor(m, i, j);
    EntryItemSlot(m, i, j);
    var e, eff := m.contents.Of(i)[j], SavedEntries(m, i)[j];
    assert EntrySavable(x, i, e, eff);
    ExifPositions.PayloadWhole(eff);
    SlotPayload(e, eff);
  }

  lemma {:induction false} NoteRemembered(order: ByteOrder, x: Input, m: Model, f: bytes, i: Ifd, j: nat)
    requires ViewOf(x, m, f) && ValidInput(x) && Savable(x, m) && OnlyNote(m, i, j)
    requires |EntryItem(m, i, j).slot.payload| > 4
    ensures LoadFile(order, FRESH, f, x.table, x.ignoreUnknown).st.mnote == EntryItem(m, i, j).ptr
  {
    hide *;
    LoadSaved(order, x, m, f);
    ReloadedNote(x, m, i, j);
  }

  lemma {:induction false} NoteLies(m: Model, i: Ifd, j: nat)
    requires j < |m.contents.Of(i)| && |EntryItem(m, i, j).slot.payload| > 4 && EntryItem(m, i, j).ptr >= 0
    ensures LiesAt(FileOf(m), 6 + EntryItem(m, i, j).ptr, EntryItem(m, i, j).slot.payload)
  {
    hide FileOf, EntryItem, LiesAt, Start, ValueStart, EntryValues, Present, Section;
    PresentWithEntries(m, i);
    FileParts(m);
    assert SectionPlaced(m, FileOf(m), i);
    SectionValues(m, FileOf(m), i);
    NoteInFile(m, FileOf(m), i, j);
  }

  lemma {:induction false} NoteFacts(x: Input, m: Model, i: Ifd, j: nat, off: int)
    requires ValidInput(x) && Savable(x, m) && OnlyNote(m, i, j) && m.md.Some? && !m.keepNote
    requires off == EntryItem(m, i, j).ptr
    ensures off >= 0 && !m.md.value.version.Unrecognized?
    ensures |EntryItem(m, i, j).slot.payload| > 4
    ensures EntryItem(m, i, j).slot.payload == MakerNote.Image(NoteAtOffset(m, off))
    ensures SavedEntries(m, i)[j].data == MakerNote.Image(NoteAtOffset(m, off))
  {
    hide Savable, ValidInput, EntryItem, DirSavable, MakerNote.Image, HasTag, SavedEntries;
    SavableDir(x, m, i);
    SavedNote(x, m, i, j);
    ImageIsLong(NoteAtOffset(m, off));
    SavedData(x, m, i, j);
  }

  /**
   Embedding: the offset handed to the maker note while saving is exactly where its bytes land, and
   exactly the offset the loader remembers for it.
   */
  lemma {:induction false} Embedding(order: ByteOrder, x: Input, m: Model, f: bytes, i: Ifd, j: nat, off: int)
    requires ViewOf(x, m, f) && ValidInput(x) && Savable(x, m) && OnlyNote(m, i, j) && m.md.Some? && !m.keepNote
    requires off == LoadFile(order, FRESH, f, x.table, x.ignoreUnknown).st.mnote
    ensures off == EntryItem(m, i, j).ptr && off >= 0 && !m.md.value.version.Unrecognized?
    ensures SavedEntries(m, i)[j].data == MakerNote.Image(NoteAtOffset(m, off))
    ensures LiesAt(f, 6 + off, MakerNote.Image(NoteAtOffset(m, off)))
  {
    hide FileOf, LoadFile, Savable, ValidInput, EntryItem, MakerNote.Image, LiesAt, HasTag, SavedEntries;
    hide TagTable.ValidTable, Capped;
    NoteFacts(x, m, i, j, EntryItem(m, i, j).ptr);
    NoteRemembered(order, x, m, f, i, j);
    NoteLies(m, i, j);
    LiesWithin(f, 0, FileOf(m), 6 + off, MakerNote.Image(NoteAtOffset(m, off)));
  }

  lemma {:induction false} SavedData(x: Input, m: Model, i: Ifd, j: nat)
    requires ValidInput(x) && DirSavable(x, m, i) && j < |m.contents.Of(i)|
    ensures SavedEntries(m, i)[j].data == EntryItem(m, i, j).slot.payload
  {
    hide TagTable.ValidTable, TagTable.Named, Special, Effs, ValueStart, Values;
    var e, eff := m.contents.Of(i)[j], SavedEntries(m, i)[j];
    EntryItemSlot(m, i, j);
    assert EntrySavable(x, i, e, eff);
    ExifPositions.PayloadWhole(eff);
    SlotPayload(e, eff);
  }

  lemma {:induction false} ImageIsLong(n: MakerNote.Note)
    requires !n.version.Unrecognized?
    ensures |MakerNote.Image(n)| > 4
  {
    hide Records, Values, EncShort, EncLong;
  }

  lemma {:induction false} SectionValues(m: Model, f: bytes, i: Ifd)
    requires SectionPlaced(m, f, i) && Present(m.contents, m.thumb, i)
    ensures LiesAt(f, 6 + ValueStart(m, i), EntryValues(m, i, ValueStart(m, i)))
  {
    hide LiesAt, Present, DirItems, Sorted, Start, ValueStart, EntryValues, Next, Directory;
    SectionPresent(m, i);
    LiesConcat(f, 6 + Start(m, i), Directory(Sorted(DirItems(m, i)), Next(m, i), m.order),
      EntryValues(m, i, ValueStart(m, i)));
  }

  lemma {:induction false} NoteInFile(m: Model, f: bytes, i: Ifd, j: nat)
    requires j < |m.contents.Of(i)| && |EntryItem(m, i, j).slot.payload| > 4
    requires LiesAt(f, 6 + ValueStart(m, i), EntryValues(m, i, ValueStart(m, i)))
    ensures LiesAt(f, 6 + EntryItem(m, i, j).ptr, EntryItem(m, i, j).slot.payload)
  {
    hide LiesAt, Values, EntrySlots, ValueStart;
    var slots := EntrySlots(m, i, ValueStart(m, i));
    ValuesAt(slots, |slots|, true, j);
    LiesWithin(f, 6 + ValueStart(m, i), Values(slots, |slots|, true), |Values(slots, j, true)|, slots[j].payload);
  }

  /**
   So the two round trips compose: a handler of the same kind, given the remembered offset and the
   whole file, reads back the note that was saved.
   */
  lemma {:induction false} NoteRoundTrip(order: ByteOrder, x: Input, m: Model, f: bytes, i: Ifd, j: nat,
                                         n: MakerNote.Note, n0: MakerNote.Note)
    requires ViewOf(x, m, f) && ValidInput(x) && Savable(x, m) && OnlyNote(m, i, j) && m.md.Some? && !m.keepNote
    requires |f| < U32
    requires n == NoteAtOffset(m, LoadFile(order, FRESH, f, x.table, x.ignoreUnknown).st.mnote)
    requires MakerNoteRoundTrip.Savable(n) && MakerNoteRoundTrip.SetUpFor(n0, n) && !n.version.NikonV0?
    requires n.version.PentaxV1? ==> 6 + n.offset + 8 <= |f|
    ensures MakerNote.Load(n0, f) == n
  {
    hide FileOf, LoadFile, Savable, ValidInput, EntryItem, MakerNote.Image, MakerNote.Load, LiesAt, OnlyNote,
      SavedEntries, ViewOf,
         MakerNoteRoundTrip.Savable, MakerNoteRoundTrip.SetUpFor, MakerNoteRoundTrip.PlacedIn;
    Embedding(order, x, m, f, i, j, n.offset);
    PlacedNote(n, f);
    MakerNoteRoundTrip.RoundTrip(n, n0, f);
  }

  lemma {:induction false} PlacedNote(n: MakerNote.Note, f: bytes)
    requires !n.version.Unrecognized? && LiesAt(f, 6 + n.offset, MakerNote.Image(n)) && |f| < U32
    requires n.version.PentaxV1? ==> 6 + n.offset + 8 <= |f|
    ensures MakerNoteRoundTrip.PlacedIn(n, f)
  {
    hide MakerNote.Image, LiesAt;
  }

  /**
   The condition on the format is needed: the record keeps the format the entry had before a format
   of another size is corrected, so what is read from it is never the entry as saved.
   */
  lemma {:induction false} UncorrectedFormatIsLost(x: Input, m: Model, e: Entry, at: nat, ptr: int, pos: nat)
    requires ValidInput(x) && m.md.Some? && !m.keepNote && e.tag == TAG_MAKER_NOTE
    requires 0 <= e.format < U16 && FormatSize(e.format) != 1
    requires LiesAt(x.d, pos, Record(Item(SlotOf(e, Effective(m, e, at)), ptr), x.order))
    ensures pos + 12 <= |x.d| && (LoadEntry(x, pos).Some? ==> LoadEntry(x, pos).value.e != Effective(m, e, at))
  {
    hide Record, MakerNote.Saved, Payload, ValueBytes, GetShort, GetLong, TagTable.ValidTable;
    RecordFields(Item(SlotOf(e, Effective(m, e, at)), ptr), x.order, x.d, pos);
  }

  /** Such a record: the entry's format is SHORT, and the note's is an empty Canon note's. */
  lemma {:induction false} UncorrectedExample(m: Model, at: nat)
    requires m.md == Some(MakerNote.Note(MakerNote.CanonF, MakerNote.CanonV, m.order, 0, [])) && !m.keepNote
    ensures var e := Entry(TAG_MAKER_NOTE, FMT_SHORT, 1, [0, 0]); var eff := Effective(m, e, at);
      && eff.format == FMT_UNDEFINED && |eff.data| == 6 == eff.components
      && var d := Record(Item(SlotOf(e, eff), 12), m.order) + Zeros(12);
      && LoadEntry(Input(d, m.order, [], false), 0).Some?
      && LoadEntry(Input(d, m.order, [], false), 0).value.e == Entry(TAG_MAKER_NOTE, FMT_SHORT, 6, Zeros(12))
  {
    hide Record, GetShort, GetLong;
    var e := Entry(TAG_MAKER_NOTE, FMT_SHORT, 1, [0, 0]);
    var eff := Effective(m, e, at);
    EmptyCanonNote(m.md.value.(offset := at));
    var i := Item(SlotOf(e, eff), 12);
    var d := Record(i, m.order) + Zeros(12);
    LiesInItself(Record(i, m.order));
    LiesLeft(Record(i, m.order), Zeros(12), 0, Record(i, m.order));
    RecordFields(i, m.order, d, 0);
    assert d[12..24] == Zeros(12);
  }

  lemma {:induction false} EmptyCanonNote(n: MakerNote.Note)
    requires n.version.CanonV? && n.entries == []
    ensures |MakerNote.Image(n)| == 6
  {
    hide EncShort, EncLong;
  }
}
