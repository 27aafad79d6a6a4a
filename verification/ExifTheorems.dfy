/** What saving and loading an EXIF file mean for each other. */
module ExifTheorems {
  import opened Bytes
  import opened Tiff
  import opened ExifTypes
  import opened ExifLayout
  import opened ExifLoad
  import opened ExifWalk
  import opened ExifSorted
  import opened ExifDirectories
  import opened ExifPositions
  import opened ExifRoundTrip
  import TagTable

  // ---- The contents ----

  lemma {:induction false} AbsentEntries(m: Model, i: Ifd)
    requires !Present(m.contents, m.thumb, i)
    ensures SortedEntries(SavedEntries(m, i)) == []
  {
    AbsentIsEmpty(m, i);
  }

  lemma {:induction false} ExifPartContents(x: Input, m: Model, st: State, k: nat)
    requires ValidInput(x) && Savable(x, m) && Positive(DirsOf(m)) && k == |Sorted(DirItems(m, Ifd0))|
    requires st.contents == EMPTY
    ensures ExifPart(st, DirsOf(m), k).contents
         == EMPTY.With(ExifIfd, SortedEntries(SavedEntries(m, ExifIfd))).With(InteropIfd,
           SortedEntries(SavedEntries(m, InteropIfd)))
  {
    hide DirItems, Sorted, Start, SortedEntries, Kept, NoteAt, DirSavable, Present, Seen, PointersPositive, Effs;
    hide ValidInput, SavedEntries;
    SeenSubs(x, m);
    SeenInterop(x, m);
    assert Present(m.contents, m.thumb, InteropIfd) ==> Present(m.contents, m.thumb, ExifIfd)
      by { InteropNeedsExif(m); }
    KeptSaved(x, m, ExifIfd);
    KeptSaved(x, m, InteropIfd);
    if !Present(m.contents, m.thumb, ExifIfd) {
      AbsentEntries(m, ExifIfd);
    }
    if !Present(m.contents, m.thumb, InteropIfd) {
      AbsentEntries(m, InteropIfd);
    }
  }

  lemma {:induction false} InteropNeedsExif(m: Model)
    ensures Present(m.contents, m.thumb, InteropIfd) ==> Present(m.contents, m.thumb, ExifIfd)
  {
  }

  lemma {:induction false} KeptSaved(x: Input, m: Model, i: Ifd)
    requires ValidInput(x) && DirSavable(x, m, i)
    ensures var items := Sorted(DirItems(m, i)); Kept(items, |items|) == SortedEntries(SavedEntries(m, i))
  {
    hide DirItems, Sorted, SortedEntries, Kept, DirSavable, Effs, ValidInput;
    KeptDir(x, m, i, SavedEntries(m, i));
  }

  ghost function SortedContents(m: Model): Contents
  {
    Contents(SortedEntries(SavedEntries(m, Ifd0)), SortedEntries(SavedEntries(m, Ifd1)),
      SortedEntries(SavedEntries(m, ExifIfd)),
             SortedEntries(SavedEntries(m, GpsIfd)), SortedEntries(SavedEntries(m, InteropIfd)))
  }

  lemma {:induction false} Ifd0Contents(x: Input, m: Model)
    requires ValidInput(x) && Savable(x, m) && Positive(DirsOf(m))
    ensures Ifd0Result(FRESH, DirsOf(m)).contents == SortedContents(m).(ifd1 := [])
    ensures Ifd0Result(FRESH, DirsOf(m)).thumb == []
  {
    hide DirItems, Sorted, Start, SortedEntries, Kept, NoteAt, DirSavable, Present, Seen, PointersPositive, Effs;
    hide ValidInput, ExifResult, SavedEntries;
    var n := |Sorted(DirItems(m, Ifd0))|;
    var v := Visited(FRESH, Ifd0, DirsOf(m).ifd0.at, n, []);
    SeenSubs(x, m);
    ExifPartContents(x, m, v, n);
    ExifPartThumb(v, DirsOf(m), n);
    KeptSaved(x, m, GpsIfd);
    KeptSaved(x, m, Ifd0);
    if !Present(m.contents, m.thumb, GpsIfd) {
      AbsentEntries(m, GpsIfd);
    }
  }

  lemma {:induction false} ExifPartThumb(st: State, D: Dirs, k: nat)
    requires Positive(D) && k <= |D.ifd0.items|
    ensures ExifPart(st, D, k).thumb == st.thumb
  {
    hide PointersPositive, NoteAt, Kept, Seen;
  }

  lemma {:induction false} ReloadedContents(x: Input, m: Model)
    requires ValidInput(x) && Savable(x, m) && Positive(DirsOf(m))
    ensures Reloaded(m).contents == SortedContents(m) && Reloaded(m).thumb == m.thumb
  {
    hide DirItems, Sorted, Start, End, SortedEntries, Kept, NoteAt, DirSavable, Present, PointersPositive, Effs;
    hide ValidInput, Ifd0Result, SavedEntries, Seen;
    Ifd0Contents(x, m);
    KeptSaved(x, m, Ifd1);
    SeenThumbnail(x, m);
    if !Present(m.contents, m.thumb, Ifd1) {
      AbsentEntries(m, Ifd1);
      NoThumbnail(m);
    }
  }

  lemma {:induction false} NoThumbnail(m: Model)
    requires !Present(m.contents, m.thumb, Ifd1)
    ensures m.thumb == []
  {
  }

  /**
   Whole-file round trip: loading the saved file, whatever may follow it, into a fresh object gives back
   the byte order, the thumbnail and, in each directory, the entries as saved, in ascending tag order.
   */
  lemma {:induction false} RoundTrip(order: ByteOrder, x: Input, m: Model, f: bytes)
    requires ViewOf(x, m, f) && ValidInput(x) && Savable(x, m)
    ensures var r := LoadFile(order, FRESH, f, x.table, x.ignoreUnknown);
      r.complete && r.order == m.order && r.st.thumb == m.thumb && r.st.contents == SortedContents(m)
  {
    hide *;
    LoadSaved(order, x, m, f);
    ReloadedContents(x, m);
  }

  // ---- Without an interpreted maker note ----

  /** What the round trip demands of an entry that is saved as it is. */
  predicate PlainEntry(table: seq<TagTable.Row>, ignoreUnknown: bool, i: Ifd, e: Entry)
    requires TagTable.ValidTable(table)
  {
    && 0 <= e.tag < U16 && !Special(e.tag)
    && 1 <= e.format <= 12 && 0 < e.components <= 65536
    && |e.data| == ValueBytes(e.format, e.components)
    && (!ignoreUnknown || TagTable.Named(table, e.tag, i))
  }

  predicate PlainDir(table: seq<TagTable.Row>, ignoreUnknown: bool, es: seq<Entry>, i: Ifd)
    requires TagTable.ValidTable(table)
  {
    DistinctTags(es) && forall k :: 0 <= k < |es| ==> PlainEntry(table, ignoreUnknown, i, es[k])
  }

  /** What the round trip demands of contents that are saved as they are. */
  predicate Plain(table: seq<TagTable.Row>, ignoreUnknown: bool, c: Contents)
    requires TagTable.ValidTable(table)
  {
    && PlainDir(table, ignoreUnknown, c.ifd0, Ifd0) && PlainDir(table, ignoreUnknown, c.ifd1, Ifd1)
    && PlainDir(table, ignoreUnknown, c.exif, ExifIfd) && PlainDir(table, ignoreUnknown, c.gps, GpsIfd)
    && PlainDir(table, ignoreUnknown, c.interop, InteropIfd)
  }

  /** Saving writes the entries as they are: no note has been interpreted, or it is not to be changed. */
  predicate KeepsEntries(m: Model)
  {
    m.md.None? || m.keepNote
  }

  /** Saving then leaves the entries as they are. */
  lemma {:induction false} EffsPlain(m: Model, es: seq<Entry>, n: nat, start: nat)
    requires KeepsEntries(m) && n <= |es|
    ensures Effs(m, es, n, start) == es[..n]
  {
    hide Values;
    if n > 0 {
      EffsPlain(m, es, n - 1, start);
      assert es[..n] == es[..n - 1] + [es[n - 1]];
    }
  }

  lemma {:induction false} SavedPlain(m: Model, i: Ifd)
    requires KeepsEntries(m)
    ensures SavedEntries(m, i) == m.contents.Of(i)
  {
    hide Effs, ValueStart;
    var es := m.contents.Of(i);
    EffsPlain(m, es, |es|, ValueStart(m, i));
    assert es[..|es|] == es;
  }

  lemma {:induction false} PlainDirSavable(x: Input, m: Model, i: Ifd)
    requires ValidInput(x) && KeepsEntries(m) && PlainDir(x.table, x.ignoreUnknown, m.contents.Of(i), i)
    ensures DirSavable(x, m, i)
  {
    hide Effs, ValueStart, Special, TagTable.Named, TagTable.ValidTable, ValueBytes, DistinctTags;
    SavedPlain(m, i);
    var es := m.contents.Of(i);
    forall k | 0 <= k < |es| ensures EntrySavable(x, i, es[k], es[k]) {
      assert PlainEntry(x.table, x.ignoreUnknown, i, es[k]);
    }
  }

  lemma {:induction false} PlainSavable(x: Input, m: Model)
    requires ValidInput(x) && KeepsEntries(m) && Plain(x.table, x.ignoreUnknown, m.contents)
    ensures Savable(x, m)
  {
    hide DirSavable, PlainDir, TagTable.ValidTable;
    PlainDirSavable(x, m, Ifd0);
    PlainDirSavable(x, m, Ifd1);
    PlainDirSavable(x, m, ExifIfd);
    PlainDirSavable(x, m, GpsIfd);
    PlainDirSavable(x, m, InteropIfd);
  }

  function SortedAll(c: Contents): Contents
  {
    Contents(SortedEntries(c.ifd0), SortedEntries(c.ifd1), SortedEntries(c.exif), SortedEntries(c.gps),
      SortedEntries(c.interop))
  }

  lemma {:induction false} SortedPlain(m: Model)
    requires KeepsEntries(m)
    ensures SortedContents(m) == SortedAll(m.contents)
  {
    hide SortedEntries, SavedEntries;
    SavedPlain(m, Ifd0);
    SavedPlain(m, Ifd1);
    SavedPlain(m, ExifIfd);
    SavedPlain(m, GpsIfd);
    SavedPlain(m, InteropIfd);
  }

  /** The loader's input for the bytes `f`, under the byte order of `m`. */
  function InputFor(m: Model, f: bytes, table: seq<TagTable.Row>, ignoreUnknown: bool): Input
    requires |f| >= 14
  {
    Input(Capped(f), m.order, table, ignoreUnknown)
  }

  lemma {:induction false} AtLeastHeader(m: Model)
    ensures |FileOf(m)| >= 14
  {
    hide Section, FileHeader;
  }

  lemma {:induction false} InputForView(m: Model, f: bytes, table: seq<TagTable.Row>, ignoreUnknown: bool)
    requires TagTable.ValidTable(table) && |FileOf(m)| <= 0xfffe && LiesAt(f, 0, FileOf(m))
    ensures |f| >= 14 && ViewOf(InputFor(m, f, table, ignoreUnknown), m, f)
    ensures ValidInput(InputFor(m, f, table, ignoreUnknown))
  {
    hide FileOf, TagTable.ValidTable;
    AtLeastHeader(m);
  }

  /**
   The round trip when no maker note is written anew: whatever follows the saved file, each
   directory comes back with exactly its entries, sorted, and so do byte order and thumbnail.
   */
  lemma {:induction false} PlainRoundTrip(order: ByteOrder, m: Model, f: bytes, table: seq<TagTable.Row>,
                                          ignoreUnknown: bool)
    requires TagTable.ValidTable(table) && KeepsEntries(m) && Plain(table, ignoreUnknown, m.contents)
    requires |FileOf(m)| <= 0xfffe && LiesAt(f, 0, FileOf(m))
    ensures var r := LoadFile(order, FRESH, f, table, ignoreUnknown);
      r.complete && r.order == m.order && r.st.thumb == m.thumb && r.st.contents == SortedAll(m.contents)
  {
    hide FileOf, LiesAt, Plain, ValidInput, ViewOf, LoadFile, SortedAll, SortedContents, TagTable.ValidTable, Capped;
    hide Savable;
    InputForView(m, f, table, ignoreUnknown);
    var x := InputFor(m, f, table, ignoreUnknown);
    PlainSavable(x, m);
    SortedPlain(m);
    RoundTrip(order, x, m, f);
  }

  // ---- Canonical form ----

  /** What a caller saves after loading the saved file. */
  ghost function Again(m: Model): Model { m.(contents := SortedAll(m.contents)) }

  lemma {:induction false} SortedDirPlain(table: seq<TagTable.Row>, ignoreUnknown: bool, es: seq<Entry>, i: Ifd)
    requires TagTable.ValidTable(table) && PlainDir(table, ignoreUnknown, es, i)
    ensures PlainDir(table, ignoreUnknown, SortedEntries(es), i)
  {
    hide PlainEntry, TagTable.ValidTable, SortedEntries;
    SortedEntriesDistinct(es);
    SortedEntriesMeaning(es);
    var ss := SortedEntries(es);
    forall k | 0 <= k < |ss| ensures PlainEntry(table, ignoreUnknown, i, ss[k]) {
      assert ss[k] in multiset(ss);
      assert ss[k] in es;
    }
  }

  lemma {:induction false} AgainPlain(table: seq<TagTable.Row>, ignoreUnknown: bool, m: Model)
    requires TagTable.ValidTable(table) && Plain(table, ignoreUnknown, m.contents)
    ensures Plain(table, ignoreUnknown, Again(m).contents)
  {
    hide PlainDir, SortedEntries, TagTable.ValidTable;
    SortedDirPlain(table, ignoreUnknown, m.contents.ifd0, Ifd0);
    SortedDirPlain(table, ignoreUnknown, m.contents.ifd1, Ifd1);
    SortedDirPlain(table, ignoreUnknown, m.contents.exif, ExifIfd);
    SortedDirPlain(table, ignoreUnknown, m.contents.gps, GpsIfd);
    SortedDirPlain(table, ignoreUnknown, m.contents.interop, InteropIfd);
  }

  lemma {:induction false} SortedTwice(es: seq<Entry>)
    ensures SortedEntries(SortedEntries(es)) == SortedEntries(es)
  {
    hide SortedEntries;
    SortedEntriesMeaning(es);
    AlreadySorted(SortedEntries(es));
  }

  lemma {:induction false} AgainTwice(m: Model)
    ensures Again(Again(m)) == Again(m)
  {
    hide SortedEntries;
    SortedTwice(m.contents.ifd0);
    SortedTwice(m.contents.ifd1);
    SortedTwice(m.contents.exif);
    SortedTwice(m.contents.gps);
    SortedTwice(m.contents.interop);
  }

  // ---- Exact layout ----

  /** The bytes an entry takes up outside its record: none if its value fits in, else rounded up to even. */
  function Outside(e: Entry): nat
  {
    var s := |Payload(e)|;
    if s <= 4 then 0 else s + s % 2
  }

  function TotalOutside(es: seq<Entry>): nat
  {
    if es == [] then 0 else Outside(es[0]) + TotalOutside(es[1..])
  }

  lemma {:induction false} TotalAppend(es: seq<Entry>, e: Entry)
    ensures TotalOutside(es + [e]) == TotalOutside(es) + Outside(e)
    decreases |es|
  {
    if es == [] {
      assert [] + [e] == [e];
    } else {
      assert (es + [e])[1..] == es[1..] + [e];
      TotalAppend(es[1..], e);
    }
  }

  lemma {:induction false} ValuesLength(es: seq<Entry>, effs: seq<Entry>, n: nat)
    requires |es| == |effs| && n <= |es|
    ensures |Values(SlotsOf(es, effs), n, true)| == TotalOutside(effs[..n])
  {
    hide Payload;
    if n > 0 {
      ValuesLength(es, effs, n - 1);
      assert effs[..n] == effs[..n - 1] + [effs[n - 1]];
      TotalAppend(effs[..n - 1], effs[n - 1]);
    }
  }

  /** The bytes of a directory with its values. */
  ghost function SectionSize(m: Model, i: Ifd): nat
  {
    if Present(m.contents, m.thumb, i)
      then 2 + 12 * Count(m.contents, m.thumb, i) + 4 + TotalOutside(SavedEntries(m, i)) else 0
  }

  lemma {:induction false} EndAt(m: Model, i: Ifd)
    ensures End(m, i) == Start(m, i) + SectionSize(m, i)
  {
    hide Effs, TotalOutside, Start, Values, Present, Count;
    var effs := SavedEntries(m, i);
    ValuesLength(m.contents.Of(i), effs, |effs|);
    assert effs[..|effs|] == effs;
  }

  /** The length of the file: nothing but the header, the directories, their values and the thumbnail. */
  lemma {:induction false} FileLength(m: Model)
    ensures |FileOf(m)| == 14 + SectionSize(m, Ifd0) + SectionSize(m, ExifIfd) + SectionSize(m, InteropIfd)
                         + SectionSize(m, GpsIfd) + SectionSize(m, Ifd1) + |m.thumb|
  {
    hide FileOf, SectionSize, End, Start;
    FileParts(m);
    ChainOfStarts(m);
    EndAt(m, Ifd0);
    EndAt(m, ExifIfd);
    EndAt(m, InteropIfd);
    EndAt(m, GpsIfd);
    EndAt(m, Ifd1);
  }

  lemma {:induction false} EvenTotal(es: seq<Entry>)
    ensures TotalOutside(es) % 2 == 0
    decreases |es|
  {
    hide Payload;
    if es != [] {
      EvenTotal(es[1..]);
    }
  }

  lemma {:induction false} EvenSection(m: Model, i: Ifd)
    ensures SectionSize(m, i) % 2 == 0
  {
    hide TotalOutside, SavedEntries, Count, Present;
    EvenTotal(SavedEntries(m, i));
  }

  /** A directory starts where the one before it ends, and its values 6 + 12 * n bytes behind that. */
  lemma {:induction false} PlaceOf(m: Model, i: Ifd)
    ensures Start(m, i) == (if i.Ifd0? then 8 else End(m, Before(i)))
    ensures ValueStart(m, i) == Start(m, i) + 6 + 12 * Count(m.contents, m.thumb, i)
  {
    hide End, Count;
  }

  /** Every directory starts at an even position, and so does every value outside its record. */
  lemma {:induction false} EvenStart(m: Model, i: Ifd)
    ensures Start(m, i) % 2 == 0 && ValueStart(m, i) % 2 == 0
    decreases Rank(i)
  {
    hide Start, ValueStart, End, SectionSize, Count;
    PlaceOf(m, i);
    if !i.Ifd0? {
      EvenStart(m, Before(i));
      EndAt(m, Before(i));
      EvenSection(m, Before(i));
      EvenSum(Start(m, Before(i)), SectionSize(m, Before(i)));
    }
    EvenSum(Start(m, i), 2 * (3 + 6 * Count(m.contents, m.thumb, i)));
  }

  lemma {:induction false} EvenSum(a: nat, b: nat)
    requires a % 2 == 0 && b % 2 == 0
    ensures (a + b) % 2 == 0
  {
  }

  lemma {:induction false} EvenValue(m: Model, i: Ifd, j: nat)
    requires j < |m.contents.Of(i)|
    ensures EntryItem(m, i, j).ptr % 2 == 0
  {
    hide Effs, ValueStart, TotalOutside, Values;
    EvenStart(m, i);
    ValuesLength(m.contents.Of(i), SavedEntries(m, i), j);
    EvenTotal(SavedEntries(m, i)[..j]);
  }

  lemma {:induction false} SavableDir(x: Input, m: Model, i: Ifd)
    requires ValidInput(x) && Savable(x, m)
    ensures DirSavable(x, m, i)
  {
    hide DirSavable;
  }

  lemma {:induction false} SpecialTagRange(m: Model, i: Ifd, e: nat)
    requires e < |ExtraItems(m, i)|
    ensures 0 <= ExtraItems(m, i)[e].slot.tag < U16
  {
    hide Start, End;
  }

  lemma {:induction false} SpecialTagRead(x: Input, m: Model, i: Ifd, k: nat)
    requires Views(x, m) && ValidInput(x) && DirSavable(x, m, i) && Present(m.contents, m.thumb, i)
    requires k < |Sorted(DirItems(m, i))|
    requires Special(Sorted(DirItems(m, i))[k].slot.tag)
    ensures Start(m, i) + 2 + 12 * k + 12 <= |x.d|
    ensures GetShort(x.d, Start(m, i) + 2 + 12 * k, x.order) == Sorted(DirItems(m, i))[k].slot.tag
  {
    hide DirItems, Sorted, Start, End, FileOf, TagTable.ValidTable, Present, GetShort, DirSavable, Section, LiesAt;
    hide ExtraItems, Record, Special;
    SectionInView(x, m, i);
    var e := SpecialRecord(x, m, i, k);
    SpecialTagRange(m, i, e);
    TagRead(x, ExtraItems(m, i)[e], Start(m, i) + 2 + 12 * k);
  }

  lemma {:induction false} RecordTag(x: Input, m: Model, i: Ifd, k: nat)
    requires Views(x, m) && ValidInput(x) && Savable(x, m) && Present(m.contents, m.thumb, i)
    requires k < |Sorted(DirItems(m, i))|
    ensures Start(m, i) + 2 + 12 * k + 12 <= |x.d|
    ensures GetShort(x.d, Start(m, i) + 2 + 12 * k, x.order) == Sorted(DirItems(m, i))[k].slot.tag
  {
    hide DirItems, Sorted, Start, End, FileOf, Savable, ValidInput, Present, GetShort, DirSavable, Section, LiesAt;
    hide DirPlaced, Special;
    SavableDir(x, m, i);
    if Special(Sorted(DirItems(m, i))[k].slot.tag) {
      SpecialTagRead(x, m, i, k);
    } else {
      SectionInView(x, m, i);
      DirInPlace(x, m, i, Sorted(DirItems(m, i)));
      EntryTagRead(x, i, Start(m, i), Sorted(DirItems(m, i)), k);
    }
  }

  /** The tags in a saved directory are those of its records, in strictly ascending order. */
  lemma {:induction false} TagsOfDirectory(x: Input, m: Model, i: Ifd)
    requires Views(x, m) && ValidInput(x) && Savable(x, m) && Present(m.contents, m.thumb, i)
    ensures var items := Sorted(DirItems(m, i));
      && StrictlySorted(items) && multiset(items) == multiset(DirItems(m, i))
      && Start(m, i) + 2 + 12 * |items| + 4 <= |x.d|
      && GetShort(x.d, Start(m, i), x.order) == |items|
      && forall k :: 0 <= k < |items| ==> GetShort(x.d, Start(m, i) + 2 + 12 * k, x.order) == items[k].slot.tag
  {
    hide DirItems, Sorted, Start, FileOf, Savable, ValidInput, Present, GetShort, DirSavable, StrictlySorted, Section;
    hide LiesAt, ExtraItems, Record, DirPlaced;
    var items := Sorted(DirItems(m, i));
    SavableDir(x, m, i);
    SectionInView(x, m, i);
    DirDistinct(x, m, i);
    SortedStrictly(DirItems(m, i));
    SortedMembers(DirItems(m, i));
    DirInPlace(x, m, i, items);
    CountRead(x, i, Start(m, i), items);
    forall k | 0 <= k < |items| ensures GetShort(x.d, Start(m, i) + 2 + 12 * k, x.order) == items[k].slot.tag {
      RecordTag(x, m, i, k);
    }
  }

  lemma {:induction false} CountRead(x: Input, i: Ifd, at: nat, items: seq<Item>)
    requires ValidInput(x) && DirPlaced(x, i, at, items)
    ensures at + 2 + 12 * |items| + 4 <= |x.d| && GetShort(x.d, at, x.order) == |items|
  {
    hide LiesAt, GetShort, StrictlySorted, EntryPlaced, TagTable.ValidTable;
    ShortAt(x.d, at, |items|, x.order);
  }

  lemma {:induction false} EntryTagRead(x: Input, i: Ifd, at: nat, items: seq<Item>, k: nat)
    requires ValidInput(x) && DirPlaced(x, i, at, items) && k < |items| && !Special(items[k].slot.tag)
    ensures at + 2 + 12 * k + 12 <= |x.d| && GetShort(x.d, at + 2 + 12 * k, x.order) == items[k].slot.tag
  {
    hide GetShort, Record, LiesAt, StrictlySorted, TagTable.ValidTable, Special;
    TagRead(x, items[k], at + 2 + 12 * k);
  }

  /**
   Every pointer names its target's start: the EXIF and GPS pointers of IFD 0, the Interoperability
   pointer of the EXIF directory, and the thumbnail's position and length in IFD 1.
   */
  lemma {:induction false} PointersResolve(x: Input, m: Model, i: Ifd, k: nat)
    requires Views(x, m) && ValidInput(x) && Savable(x, m) && Present(m.contents, m.thumb, i)
    requires k < |Sorted(DirItems(m, i))| && Special(Sorted(DirItems(m, i))[k].slot.tag)
    ensures Start(m, i) + 2 + 12 * k + 12 <= |x.d|
    ensures var tag, v := Sorted(DirItems(m, i))[k].slot.tag, GetLong(x.d, Start(m, i) + 2 + 12 * k + 8, x.order);
      || (i.Ifd0? && tag == TAG_EXIF_POINTER && v == Start(m, ExifIfd))
      || (i.Ifd0? && tag == TAG_GPS_POINTER && v == Start(m, GpsIfd))
      || (i.ExifIfd? && tag == TAG_INTEROP_POINTER && v == Start(m, InteropIfd))
      || (i.Ifd1? && tag == TAG_THUMBNAIL && v == End(m, Ifd1))
      || (i.Ifd1? && tag == TAG_THUMBNAIL_LENGTH && v == |m.thumb|)
  {
    hide DirItems, Sorted, Start, End, FileOf, Savable, ValidInput, GetShort, GetLong, DirSavable, Special;
    hide PointerPlaced;
    SavableDir(x, m, i);
    var pos := Start(m, i) + 2 + 12 * k;
    match i
    case Ifd0 =>
      Ifd0PointerInPlace(x, m, k);
      if Sorted(DirItems(m, Ifd0))[k].slot.tag == TAG_EXIF_POINTER {
        PointerRead(x, TAG_EXIF_POINTER, Start(m, ExifIfd), pos);
      } else {
        PointerRead(x, TAG_GPS_POINTER, Start(m, GpsIfd), pos);
      }
    case ExifIfd =>
      ExifPointerInPlace(x, m, k);
      PointerRead(x, TAG_INTEROP_POINTER, Start(m, InteropIfd), pos);
    case Ifd1 =>
      Ifd1PointerInPlace(x, m, k);
      if Sorted(DirItems(m, Ifd1))[k].slot.tag == TAG_THUMBNAIL {
        PointerRead(x, TAG_THUMBNAIL, End(m, Ifd1), pos);
      } else {
        PointerRead(x, TAG_THUMBNAIL_LENGTH, |m.thumb|, pos);
      }
    case GpsIfd =>
      NoSpecials(x, m, GpsIfd);
    case InteropIfd =>
      NoSpecials(x, m, InteropIfd);
  }

  // ---- Canonical form, concluded ----

  lemma {:induction false} TotalInsert(e: Entry, es: seq<Entry>)
    ensures TotalOutside(InsertEntry(e, es)) == Outside(e) + TotalOutside(es) && |InsertEntry(e, es)| == |es| + 1
    decreases |es|
  {
    hide Outside;
    if es == [] || e.tag <= es[0].tag {
      assert ([e] + es)[1..] == es;
    } else {
      TotalInsert(e, es[1..]);
      assert ([es[0]] + InsertEntry(e, es[1..]))[1..] == InsertEntry(e, es[1..]);
    }
  }

  lemma {:induction false} TotalSorted(es: seq<Entry>)
    ensures TotalOutside(SortedEntries(es)) == TotalOutside(es) && |SortedEntries(es)| == |es|
    decreases |es|
  {
    hide Outside;
    if es != [] {
      TotalSorted(es[1..]);
      TotalInsert(es[0], SortedEntries(es[1..]));
    }
  }

  lemma {:induction false} SameShape(m: Model, i: Ifd)
    ensures Present(Again(m).contents, m.thumb, i) == Present(m.contents, m.thumb, i)
    ensures Count(Again(m).contents, m.thumb, i) == Count(m.contents, m.thumb, i)
  {
    hide SortedEntries, TotalOutside;
    TotalSorted(m.contents.ifd0);
    TotalSorted(m.contents.ifd1);
    TotalSorted(m.contents.exif);
    TotalSorted(m.contents.gps);
    TotalSorted(m.contents.interop);
  }

  lemma {:induction false} AgainOf(m: Model, i: Ifd)
    ensures Again(m).contents.Of(i) == SortedEntries(m.contents.Of(i))
  {
    hide SortedEntries;
  }

  lemma {:induction false} SameSize(m: Model, i: Ifd)
    requires KeepsEntries(m)
    ensures SectionSize(Again(m), i) == SectionSize(m, i)
  {
    hide SortedEntries, TotalOutside, SavedEntries, Count, Present;
    SameShape(m, i);
    SavedPlain(m, i);
    SavedPlain(Again(m), i);
    AgainOf(m, i);
    TotalSorted(m.contents.Of(i));
  }

  /**
   Behind its records every directory has a link: IFD 0 to the start of IFD 1 if that is there, and all others nowhere.
   */
  lemma {:induction false} LinkResolves(x: Input, m: Model, i: Ifd)
    requires Views(x, m) && Present(m.contents, m.thumb, i)
    ensures var at := Start(m, i) + 2 + 12 * |DirItems(m, i)|;
      && at + 4 <= |x.d|
      && GetLong(x.d, at, x.order) == (if i.Ifd0? && Present(m.contents, m.thumb, Ifd1) then Start(m, Ifd1) else 0)
  {
    hide FileOf, Section, LiesAt, Sorted, DirItems, Start, End, Count, Present, TagTable.ValidTable, Records;
    hide EntryValues, GetLong;
    SectionInView(x, m, i);
    DirectoryParts(m, x.d, i, Sorted(DirItems(m, i)));
    LinkInside(x, m);
    LongAt(x.d, Start(m, i) + 2 + 12 * |DirItems(m, i)|, Next(m, i), x.order);
  }

  /** Saving the entries in another order takes just as many bytes. */
  lemma {:induction false} SameLength(m: Model)
    requires KeepsEntries(m)
    ensures |FileOf(Again(m))| == |FileOf(m)|
  {
    hide SectionSize, FileOf, SortedEntries;
    FileLength(m);
    FileLength(Again(m));
    SameSize(m, Ifd0);
    SameSize(m, ExifIfd);
    SameSize(m, InteropIfd);
    SameSize(m, GpsIfd);
    SameSize(m, Ifd1);
  }

  /** What is saved when the result of a load is saved. */
  function ModelOf(r: Result, keepNote: bool): Model
  {
    Model(r.order, r.st.contents, r.st.thumb, None, keepNote)
  }

  /** The file saved again after loading. */
  ghost function Resaved(f: bytes, order: ByteOrder, table: seq<TagTable.Row>, ignoreUnknown: bool,
                         keepNote: bool): bytes
    requires TagTable.ValidTable(table)
  {
    FileOf(ModelOf(LoadFile(order, FRESH, f, table, ignoreUnknown), keepNote))
  }

  lemma {:induction false} ResavedIs(order: ByteOrder, m: Model, table: seq<TagTable.Row>, ignoreUnknown: bool)
    requires TagTable.ValidTable(table) && m.md.None? && Plain(table, ignoreUnknown, m.contents)
    requires |FileOf(m)| <= 0xfffe
    ensures Resaved(FileOf(m), order, table, ignoreUnknown, m.keepNote) == FileOf(Again(m))
  {
    hide LoadFile, FileOf, SortedEntries, Plain;
    LiesInItself(FileOf(m));
    PlainRoundTrip(order, m, FileOf(m), table, ignoreUnknown);
  }

  predicate InTagOrder(c: Contents)
  {
    EntriesAscend(c.ifd0) && EntriesAscend(c.ifd1) && EntriesAscend(c.exif) && EntriesAscend(c.gps)
      && EntriesAscend(c.interop)
  }

  /**
   Canonical form: one load and save puts the file into a form that a further load and save
   reproduces byte for byte; entries that were in tag order to begin with are saved in that form.
   */
  lemma {:induction false} Canonical(order: ByteOrder, m: Model, table: seq<TagTable.Row>, ignoreUnknown: bool)
    requires TagTable.ValidTable(table) && m.md.None? && Plain(table, ignoreUnknown, m.contents)
    requires |FileOf(m)| <= 0xfffe
    ensures var b := Resaved(FileOf(m), order, table, ignoreUnknown, m.keepNote);
      && Resaved(b, order, table, ignoreUnknown, m.keepNote) == b
      && |b| == |FileOf(m)|
      && (InTagOrder(m.contents) ==> b == FileOf(m))
  {
    hide LoadFile, FileOf, SortedEntries, Plain, Resaved, Again, TagTable.ValidTable;
    ResavedIs(order, m, table, ignoreUnknown);
    SameLength(m);
    AgainPlain(table, ignoreUnknown, m);
    AgainTwice(m);
    AgainFields(m);
    ResavedIs(order, Again(m), table, ignoreUnknown);
  }

  lemma {:induction false} AgainFields(m: Model)
    ensures Again(m).order == m.order && Again(m).md == m.md && Again(m).keepNote == m.keepNote
    ensures InTagOrder(m.contents) ==> Again(m) == m
  {
    hide SortedEntries, EntriesAscend;
    if InTagOrder(m.contents) {
      AlreadySorted(m.contents.ifd0);
      AlreadySorted(m.contents.ifd1);
      AlreadySorted(m.contents.exif);
      AlreadySorted(m.contents.gps);
      AlreadySorted(m.contents.interop);
    }
  }
}
