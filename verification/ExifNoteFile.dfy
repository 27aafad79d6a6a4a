/** Files with an interpreted maker note: conditions a caller can check before saving, and the whole way back. */
module ExifNoteFile {
  import opened Bytes
  import opened ExifTypes
  import opened ExifLayout
  import opened ExifLoad
  import opened ExifSorted
  import opened ExifPositions
  import opened ExifRoundTrip
  import opened ExifTheorems
  import opened ExifEmbedding
  import MakerNote
  import MakerNoteOrder
  import MakerNoteRoundTrip
  import ExifDataObject
  import TagTable
  import Loader
  import LoaderJpeg
  import JpegFile

  /** What is asked of an entry. The data of the maker note are written anew, so only its format matters. */
  predicate NotedEntry(table: seq<TagTable.Row>, ignoreUnknown: bool, i: Ifd, e: Entry)
    requires TagTable.ValidTable(table)
  {
    if e.tag == TAG_MAKER_NOTE then FormatSize(e.format) == 1 && (!ignoreUnknown || TagTable.Named(table, e.tag, i))
    else PlainEntry(table, ignoreUnknown, i, e)
  }

  predicate NotedDir(table: seq<TagTable.Row>, ignoreUnknown: bool, es: seq<Entry>, i: Ifd)
    requires TagTable.ValidTable(table)
  {
    DistinctTags(es) && forall k :: 0 <= k < |es| ==> NotedEntry(table, ignoreUnknown, i, es[k])
  }

  predicate Noted(table: seq<TagTable.Row>, ignoreUnknown: bool, c: Contents)
    requires TagTable.ValidTable(table)
  {
    && NotedDir(table, ignoreUnknown, c.ifd0, Ifd0) && NotedDir(table, ignoreUnknown, c.ifd1, Ifd1)
    && NotedDir(table, ignoreUnknown, c.exif, ExifIfd) && NotedDir(table, ignoreUnknown, c.gps, GpsIfd)
    && NotedDir(table, ignoreUnknown, c.interop, InteropIfd)
  }

  /**
   What is asked of the note: it can be saved and read back, fits into an entry, and the file tells its order if it does
   not.
   */
  ghost predicate NoteFits(m: Model)
  {
    && m.md.Some? && !m.keepNote
    && var n := m.md.value;
    && MakerNoteRoundTrip.Savable(n) && !n.version.NikonV0? && |MakerNote.Image(n)| <= MAX_COMPONENTS
    && (MakerNoteRoundTrip.OrderFromCaller(n.version) ==> n.order == m.order)
    && (n.version.PentaxV1? ==> n.entries != [])
  }

  /** A new handler of the kind the note needs. */
  predicate HandlerFor(n0: MakerNote.Note, n: MakerNote.Note)
  {
    n0.family == n.family && (n.family.CanonF? || n.family.FujiF? ==> n0.version == n.version)
  }

  /** A note takes as many bytes wherever it lies. */
  lemma {:induction false} ImageLength(n: MakerNote.Note, off: nat)
    requires !n.version.Unrecognized?
    ensures |MakerNote.Image(n.(offset := off))| == |MakerNote.Image(n)|
  {
    hide MakerNote.Header, EncShort, EncLong, Tiff.Values, Tiff.Records, MakerNote.Slots;
  }

  /** The maker-note entry as saved for the offset `off`. */
  ghost function NoteEntryAt(m: Model, e: Entry, off: nat): Entry
    requires m.md.Some? && !m.md.value.version.Unrecognized?
  {
    var b := MakerNote.Image(NoteAtOffset(m, off));
    Entry(e.tag, e.format, |b|, b)
  }

  lemma {:induction false} NotedEffective(x: Input, m: Model, i: Ifd, e: Entry, at: nat)
    requires ValidInput(x) && NoteFits(m) && NotedEntry(x.table, x.ignoreUnknown, i, e)
    ensures EntrySavable(x, i, e, Effective(m, e, at))
    ensures Effective(m, e, at) == if e.tag == TAG_MAKER_NOTE then NoteEntryAt(m, e, at) else e
  {
    hide TagTable.ValidTable, TagTable.Named, MakerNote.Image, MakerNoteRoundTrip.EntryOk, MakerNote.SumCounts;
    if e.tag == TAG_MAKER_NOTE {
      ImageLength(m.md.value, at);
      ImageIsLong(NoteAtOffset(m, at));
    }
  }

  lemma {:induction false} NotedDirSavable(x: Input, m: Model, i: Ifd)
    requires ValidInput(x) && NoteFits(m) && NotedDir(x.table, x.ignoreUnknown, m.contents.Of(i), i)
    ensures DirSavable(x, m, i)
  {
    hide TagTable.ValidTable, NoteFits, NotedEntry, EntrySavable, Effs, ValueStart, Effective, DistinctTags, EntryItem;
    var es := m.contents.Of(i);
    forall k | 0 <= k < |es| ensures EntrySavable(x, i, es[k], SavedEntries(m, i)[k]) {
      EffectiveFor(m, i, k);
      NotedEffective(x, m, i, es[k], EntryItem(m, i, k).ptr);
    }
  }

  lemma {:induction false} NotedSavable(x: Input, m: Model)
    requires ValidInput(x) && NoteFits(m) && Noted(x.table, x.ignoreUnknown, m.contents)
    ensures Savable(x, m)
  {
    hide DirSavable, NotedDir, NoteFits, TagTable.ValidTable;
    NotedDirSavable(x, m, Ifd0);
    NotedDirSavable(x, m, Ifd1);
    NotedDirSavable(x, m, ExifIfd);
    NotedDirSavable(x, m, GpsIfd);
    NotedDirSavable(x, m, InteropIfd);
  }

  /** The contents as saved: entry `j` of directory `i` holds the note, and nothing else has changed. */
  ghost function NotedContents(m: Model, i: Ifd, j: nat, off: nat): Contents
    requires NoteFits(m) && j < |m.contents.Of(i)|
  {
    m.contents.With(i, m.contents.Of(i)[j := NoteEntryAt(m, m.contents.Of(i)[j], off)])
  }

  lemma {:induction false} NotedSaved(x: Input, m: Model, i: Ifd, j: nat, off: nat, d: Ifd)
    requires ValidInput(x) && NoteFits(m) && OnlyNote(m, i, j)
    requires NotedDir(x.table, x.ignoreUnknown, m.contents.Of(d), d)
    requires off == EntryItem(m, i, j).ptr
    ensures SavedEntries(m, d) == NotedContents(m, i, j, off).Of(d)
  {
    hide TagTable.ValidTable, NoteFits, NotedEntry, EntrySavable, Effs, ValueStart, Effective, EntryItem, NoteEntryAt;
    var es := m.contents.Of(d);
    forall k | 0 <= k < |es| ensures SavedEntries(m, d)[k] == NotedContents(m, i, j, off).Of(d)[k] {
      EffectiveFor(m, d, k);
      NotedEffective(x, m, d, es[k], EntryItem(m, d, k).ptr);
    }
  }

  lemma {:induction false} NotedSorted(x: Input, m: Model, i: Ifd, j: nat, off: nat)
    requires ValidInput(x) && NoteFits(m) && OnlyNote(m, i, j) && Noted(x.table, x.ignoreUnknown, m.contents)
    requires off == EntryItem(m, i, j).ptr
    ensures SortedContents(m) == SortedAll(NotedContents(m, i, j, off))
  {
    hide TagTable.ValidTable, NoteFits, NotedDir, OnlyNote, SavedEntries, EntryItem, NotedContents, SortedEntries;
    NotedSaved(x, m, i, j, off, Ifd0);
    NotedSaved(x, m, i, j, off, Ifd1);
    NotedSaved(x, m, i, j, off, ExifIfd);
    NotedSaved(x, m, i, j, off, GpsIfd);
    NotedSaved(x, m, i, j, off, InteropIfd);
  }

  lemma {:induction false} NoteReadable(m: Model, n0: MakerNote.Note, off: nat, f: bytes)
    requires NoteFits(m) && HandlerFor(n0, m.md.value) && |f| < U32
    requires LiesAt(f, 6 + off, MakerNote.Image(NoteAtOffset(m, off)))
    ensures ExifDataObject.Interpreted(n0, m.order, off, f) == NoteAtOffset(m, off)
  {
    hide MakerNote.Load, MakerNote.SumCounts, MakerNoteRoundTrip.EntryOk, LiesAt, MakerNoteRoundTrip.PlacedIn;
    var n := NoteAtOffset(m, off);
    if n.version.PentaxV1? {
      PentaxLength(n);
      LiesInside(f, 6 + off, MakerNote.Image(n));
    }
    PlacedNote(n, f);
    MakerNoteRoundTrip.RoundTrip(n, MakerNoteOrder.SwitchedNote(n0, m.order).(offset := off), f);
  }

  lemma {:induction false} PentaxLength(n: MakerNote.Note)
    requires n.version.PentaxV1? && n.entries != []
    ensures |MakerNote.Image(n)| >= 8
  {
    hide Tiff.Values, Tiff.Records, EncShort, MakerNote.Slots;
  }

  lemma {:induction false} LiesInside(b: bytes, at: nat, x: bytes)
    requires LiesAt(b, at, x)
    ensures at + |x| <= |b|
  {
  }

  /**
   The whole way back: a file saved with an interpreted note, whatever follows it, gives back byte order,
   thumbnail and entries, the note's entry holding the note's bytes, and a new handler of the note's kind,
   given the whole file at the remembered offset, reads the note itself.
   */
  lemma {:induction false} NotedRoundTrip(order: ByteOrder, m: Model, f: bytes, table: seq<TagTable.Row>,
                                          ignoreUnknown: bool,
                                          i: Ifd, j: nat, n0: MakerNote.Note)
    requires TagTable.ValidTable(table) && Noted(table, ignoreUnknown, m.contents) && NoteFits(m) && OnlyNote(m, i, j)
    requires |FileOf(m)| <= 0xfffe && LiesAt(f, 0, FileOf(m)) && |f| < U32 && HandlerFor(n0, m.md.value)
    ensures var r := LoadFile(order, FRESH, f, table, ignoreUnknown);
      && r.complete && r.order == m.order && r.st.thumb == m.thumb
      && r.st.contents == SortedAll(NotedContents(m, i, j, r.st.mnote))
      && FindExif(f) == Some(f) && ExifDataObject.Interpreted(n0, r.order, r.st.mnote, f) == NoteAtOffset(m, r.st.mnote)
  {
    hide FileOf, LiesAt, Noted, NoteFits, OnlyNote, ValidInput, ViewOf, LoadFile, SortedAll, SortedContents,
      TagTable.ValidTable, Capped, Savable,
         EntryItem, MakerNote.Image, NotedContents, HandlerFor, ExifDataObject.Interpreted, SavedEntries;
    InputForView(m, f, table, ignoreUnknown);
    AtLeastHeader(m);
    FileFound(m, f);
    var x := InputFor(m, f, table, ignoreUnknown);
    NotedSavable(x, m);
    RoundTrip(order, x, m, f);
    var off := LoadFile(order, FRESH, f, table, ignoreUnknown).st.mnote;
    NoteOfModel(m);
    Embedding(order, x, m, f, i, j, off);
    NotedSorted(x, m, i, j, off);
    NoteReadable(m, n0, off, f);
  }

  lemma {:induction false} NoteOfModel(m: Model)
    requires NoteFits(m)
    ensures m.md.Some? && !m.keepNote
  {
  }

  /** The same by way of a JPEG stream that is fed to the loader in chunks of any size. */
  lemma {:induction false} NotedStreamRoundTrip(order: ByteOrder, m: Model, table: seq<TagTable.Row>,
                                                ignoreUnknown: bool, i: Ifd, j: nat,
                                                n0: MakerNote.Note, segs: seq<LoaderJpeg.Segment>, fill: nat,
                                                  rest: bytes,
                                                chunks: seq<bytes>, got: bytes)
    requires TagTable.ValidTable(table) && Noted(table, ignoreUnknown, m.contents) && NoteFits(m) && OnlyNote(m, i, j)
    requires |FileOf(m)| < 0xfffe && HandlerFor(n0, m.md.value)
    requires (forall s <- segs :: LoaderJpeg.WellFormed(s)) && fill > 0 && LoaderJpeg.PassedOver(segs)
    requires Loader.Joined(chunks) == JpegFile.Stream(segs, fill, FileOf(m), rest)
    requires Loader.Reachable(Loader.INITIAL) && got == Loader.RunChunks(Loader.INITIAL, chunks).0.got
    ensures var r := LoadFile(order, FRESH, got, table, ignoreUnknown);
      && r.complete && r.order == m.order && r.st.thumb == m.thumb
      && r.st.contents == SortedAll(NotedContents(m, i, j, r.st.mnote))
      && ExifDataObject.Interpreted(n0, r.order, r.st.mnote, got) == NoteAtOffset(m, r.st.mnote)
  {
    hide FileOf, LiesAt, Noted, NoteFits, OnlyNote, LoadFile, SortedAll, TagTable.ValidTable, NotedContents, HandlerFor;
    hide ExifDataObject.Interpreted;
    hide JpegFile.Stream, Loader.Run, Loader.RunChunks, Loader.Reachable, LoaderJpeg.PassedOver, LoaderJpeg.WellFormed;
    NoteOfModel(m);
    JpegFile.FileStartsWithHeader(m);
    Loader.ChunkIndependence(Loader.INITIAL, chunks);
    JpegFile.StreamCollected(segs, fill, FileOf(m), rest, Loader.Joined(chunks));
    NotedRoundTrip(order, m, got, table, ignoreUnknown, i, j, n0);
  }

  // ---- The conditions can be met ----

  const SMALL_NOTE := MakerNote.Note(MakerNote.CanonF, MakerNote.CanonV, Intel, 0, [])
  const SMALL_ENTRY := Entry(0x927c, 7, 1, [0])
  const SMALL := Model(Intel, EMPTY.(exif := [SMALL_ENTRY]), [], Some(SMALL_NOTE), false)

  lemma {:induction false} SmallNote()
    ensures MakerNoteRoundTrip.Savable(SMALL_NOTE) && forall off: nat ::
      |MakerNote.Image(SMALL_NOTE.(offset := off))| == 6
  {
  }

  lemma {:induction false} SmallFits()
    ensures Noted([], false, SMALL.contents) && NoteFits(SMALL) && OnlyNote(SMALL, ExifIfd, 0)
  {
    hide MakerNoteRoundTrip.Savable, MakerNote.Image, Special;
    SmallNote();
    assert SMALL_NOTE.(offset := 0) == SMALL_NOTE;
    assert forall i': Ifd :: i' != ExifIfd ==> SMALL.contents.Of(i') == [];
  }

  lemma {:induction false} SmallSection()
    ensures SectionSize(SMALL, ExifIfd) == 24
  {
    hide NoteFits, MakerNote.Image, Effs, Effective, EntryItem, ValueStart;
    SmallFits();
    SmallNote();
    var off := EntryItem(SMALL, ExifIfd, 0).ptr;
    EffectiveFor(SMALL, ExifIfd, 0);
    var e := SavedEntries(SMALL, ExifIfd)[0];
    SmallEffective(off);
    assert e == NoteEntryAt(SMALL, SMALL_ENTRY, off);
    assert SavedEntries(SMALL, ExifIfd) == [e];
    assert Outside(e) == 6;
    assert TotalOutside([e]) == 6;
  }

  lemma {:induction false} SmallEffective(off: nat)
    ensures Effective(SMALL, SMALL_ENTRY, off) == NoteEntryAt(SMALL, SMALL_ENTRY, off)
  {
    hide MakerNote.Image;
  }

  /** A file with nothing but an empty Canon note takes 56 bytes and meets all the conditions of the way back. */
  lemma {:induction false} ConditionsCanBeMet()
    ensures Noted([], false, SMALL.contents) && NoteFits(SMALL) && OnlyNote(SMALL, ExifIfd, 0) && |FileOf(SMALL)| == 56
  {
    hide FileOf, NoteFits, Effs, Noted, OnlyNote;
    FileLength(SMALL);
    SmallFits();
    SmallSection();
  }
}
