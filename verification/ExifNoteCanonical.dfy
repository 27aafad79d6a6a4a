/** Files with an interpreted maker note: loading and saving again reaches a fixed point. */
module ExifNoteCanonical {
  import opened Bytes
  import opened Tiff
  import opened ExifTypes
  import opened ExifLayout
  import opened ExifLoad
  import opened ExifSorted
  import opened ExifPositions
  import opened ExifRoundTrip
  import opened ExifTheorems
  import opened ExifEmbedding
  import opened ExifNoteFile
  import MakerNote
  import MakerNoteRoundTrip
  import ExifDataObject
  import TagTable

  // ---- What the saved file depends on ----

  /** The same entries but for the data of a maker note. */
  predicate SameButNote(a: seq<Entry>, b: seq<Entry>)
  {
    && |a| == |b|
    && forall k :: 0 <= k < |a| ==> SameHead(a[k], b[k])
  }

  predicate SameHead(e: Entry, f: Entry)
  {
    e.tag == f.tag && e.format == f.format && (e.tag != TAG_MAKER_NOTE ==> e == f)
  }

  /** The same model but for what a note's entry holds and the offset the note was told last. */
  ghost predicate Alike(a: Model, b: Model)
  {
    && a.order == b.order && a.thumb == b.thumb
    && a.md.Some? && b.md.Some? && !a.keepNote && !b.keepNote
    && a.md.value.(offset := 0) == b.md.value.(offset := 0)
    && forall d: Ifd :: SameButNote(a.contents.Of(d), b.contents.Of(d))
  }

  lemma {:induction false} EffectiveAlike(a: Model, b: Model, e: Entry, f: Entry, at: nat)
    requires Alike(a, b) && SameHead(e, f)
    ensures Effective(a, e, at) == Effective(b, f, at)
    ensures SlotOf(e, Effective(a, e, at)) == SlotOf(f, Effective(b, f, at))
  {
    hide MakerNote.Saved, Payload, SameButNote;
    assert a.md.value.(offset := 0).(offset := at) == a.md.value.(offset := at);
    assert b.md.value.(offset := 0).(offset := at) == b.md.value.(offset := at);
  }

  lemma {:induction false} EffsAlike(a: Model, b: Model, es: seq<Entry>, fs: seq<Entry>, n: nat, start: nat)
    requires Alike(a, b) && SameButNote(es, fs) && n <= |es|
    ensures Effs(a, es, n, start) == Effs(b, fs, n, start)
    ensures SlotsOf(es[..n], Effs(a, es, n, start)) == SlotsOf(fs[..n], Effs(b, fs, n, start))
  {
    hide Alike, Effective, SlotOf, Values, SameHead;
    if n > 0 {
      EffsAlike(a, b, es, fs, n - 1, start);
      var r, slots := Effs(a, es, n - 1, start), SlotsOf(es[..n - 1], Effs(a, es, n - 1, start));
      var at := start + |Values(slots, n - 1, true)|;
      assert SameHead(es[n - 1], fs[n - 1]);
      EffectiveAlike(a, b, es[n - 1], fs[n - 1], at);
      SlotsNext(es, r, n - 1, Effective(a, es[n - 1], at));
      SlotsNext(fs, r, n - 1, Effective(b, fs[n - 1], at));
    }
  }

  lemma {:induction false} SlotsNext(es: seq<Entry>, effs: seq<Entry>, n: nat, eff: Entry)
    requires n < |es| && |effs| == n
    ensures SlotsOf(es[..n + 1], effs + [eff]) == SlotsOf(es[..n], effs) + [SlotOf(es[n], eff)]
  {
    hide SlotOf;
  }

  lemma {:induction false} SlotsAlike(a: Model, b: Model, d: Ifd, vals: nat)
    requires Alike(a, b)
    ensures EntrySlots(a, d, vals) == EntrySlots(b, d, vals) && EntryValues(a, d, vals) == EntryValues(b, d, vals)
  {
    hide Effs, SlotsOf, Values, SameHead;
    var es, fs := a.contents.Of(d), b.contents.Of(d);
    assert SameButNote(es, fs);
    EffsAlike(a, b, es, fs, |es|, vals);
    assert es[..|es|] == es && fs[..|fs|] == fs;
  }

  lemma {:induction false} CountsAlike(a: Model, b: Model, d: Ifd)
    requires Alike(a, b)
    ensures Present(a.contents, a.thumb, d) == Present(b.contents, b.thumb, d)
    ensures Count(a.contents, a.thumb, d) == Count(b.contents, b.thumb, d)
    ensures Extras(a.contents, a.thumb, d) == Extras(b.contents, b.thumb, d)
  {
    hide SameHead;
    assert forall i: Ifd :: |a.contents.Of(i)| == |b.contents.Of(i)|;
    assert |a.contents.Of(ExifIfd)| == |b.contents.Of(ExifIfd)| && |a.contents.Of(GpsIfd)| == |b.contents.Of(GpsIfd)|;
    assert |a.contents.Of(InteropIfd)| == |b.contents.Of(InteropIfd)| && |a.contents.Of(Ifd1)| == |b.contents.Of(Ifd1)|;
  }

  lemma {:induction false} StartsAlike(a: Model, b: Model, d: Ifd)
    requires Alike(a, b)
    ensures Start(a, d) == Start(b, d) && ValueStart(a, d) == ValueStart(b, d) && End(a, d) == End(b, d)
    decreases Rank(d)
  {
    hide Alike, Count, Present, EntryValues;
    if !d.Ifd0? {
      StartsAlike(a, b, Before(d));
    }
    CountsAlike(a, b, d);
    SlotsAlike(a, b, d, ValueStart(a, d));
  }

  lemma {:induction false} SectionAlike(a: Model, b: Model, d: Ifd)
    requires Alike(a, b)
    ensures Section(a, d) == Section(b, d)
  {
    hide Alike, Count, Present, EntryValues, EntrySlots, Start, ValueStart, End, Directory, Sorted, Items;
    CountsAlike(a, b, d);
    StartsAlike(a, b, d);
    SlotsAlike(a, b, d, ValueStart(a, d));
    ExtrasAlike(a, b, d);
    CountsAlike(a, b, Ifd1);
    StartsAlike(a, b, Ifd1);
    assert a.order == b.order by { OrderAlike(a, b); }
  }

  lemma {:induction false} OrderAlike(a: Model, b: Model)
    requires Alike(a, b)
    ensures a.order == b.order && a.thumb == b.thumb
  {
  }

  lemma {:induction false} ExtrasAlike(a: Model, b: Model, d: Ifd)
    requires Alike(a, b)
    ensures ExtraItems(a, d) == ExtraItems(b, d)
  {
    hide Alike, Present, Start, End, PointerItem;
    OrderAlike(a, b);
    CountsAlike(a, b, ExifIfd);
    CountsAlike(a, b, GpsIfd);
    CountsAlike(a, b, InteropIfd);
    StartsAlike(a, b, ExifIfd);
    StartsAlike(a, b, GpsIfd);
    StartsAlike(a, b, InteropIfd);
    StartsAlike(a, b, Ifd1);
  }

  /** Alike models are saved as the same file. */
  lemma {:induction false} FilesAlike(a: Model, b: Model)
    requires Alike(a, b)
    ensures FileOf(a) == FileOf(b)
  {
    hide Alike, Section, FileHeader;
    OrderAlike(a, b);
    SectionAlike(a, b, Ifd0);
    SectionAlike(a, b, ExifIfd);
    SectionAlike(a, b, InteropIfd);
    SectionAlike(a, b, GpsIfd);
    SectionAlike(a, b, Ifd1);
  }

  // ---- One round ----

  /** What one load makes of the saved model: the entries in order, the note's with its bytes, and the note itself. */
  ghost function Round(m: Model, i: Ifd, j: nat, off: nat): Model
    requires NoteFits(m) && j < |m.contents.Of(i)|
  {
    Model(m.order, SortedAll(NotedContents(m, i, j, off)), m.thumb, Some(NoteAtOffset(m, off)), false)
  }

  lemma {:induction false} SortedAllOf(c: Contents, d: Ifd)
    ensures SortedAll(c).Of(d) == SortedEntries(c.Of(d))
  {
    hide SortedEntries;
  }

  lemma {:induction false} NotedIsSame(m: Model, i: Ifd, j: nat, off: nat, d: Ifd)
    requires NoteFits(m) && OnlyNote(m, i, j)
    ensures SameButNote(m.contents.Of(d), NotedContents(m, i, j, off).Of(d))
  {
    hide NoteFits, MakerNote.Image;
  }

  lemma {:induction false} SameOrder(a: seq<Entry>, b: seq<Entry>)
    requires SameButNote(a, b) && EntriesAscend(a)
    ensures SortedEntries(b) == b
  {
    hide SortedEntries, SameHead;
    assert forall k :: 0 <= k < |a| ==> SameHead(a[k], b[k]) && a[k].tag == b[k].tag by { SameTags(a, b); }
    AlreadySorted(b);
  }

  lemma {:induction false} SameTags(a: seq<Entry>, b: seq<Entry>)
    requires SameButNote(a, b)
    ensures forall k :: 0 <= k < |a| ==> SameHead(a[k], b[k]) && a[k].tag == b[k].tag && a[k].format == b[k].format
  {
  }

  /** Entries that are in order stay as they are, but for the note's data: then the same file is saved again. */
  lemma {:induction false} RoundInOrder(m: Model, i: Ifd, j: nat, off: nat)
    requires NoteFits(m) && OnlyNote(m, i, j) && forall d: Ifd :: EntriesAscend(m.contents.Of(d))
    ensures FileOf(Round(m, i, j, off)) == FileOf(m)
  {
    hide FileOf, SortedEntries, SameButNote, EntriesAscend, NoteFits, NotedContents, SortedAll;
    var r := Round(m, i, j, off);
    forall d: Ifd ensures SameButNote(m.contents.Of(d), r.contents.Of(d)) {
      NotedIsSame(m, i, j, off, d);
      SortedAllOf(NotedContents(m, i, j, off), d);
      SameOrder(m.contents.Of(d), NotedContents(m, i, j, off).Of(d));
    }
    NoteOfModel(m);
    FilesAlike(m, r);
  }

  // ---- The result of a round can go through another ----

  lemma {:induction false} NotedEntryAgain(table: seq<TagTable.Row>, ignoreUnknown: bool, d: Ifd, e: Entry, f: Entry)
    requires TagTable.ValidTable(table) && NotedEntry(table, ignoreUnknown, d, e) && SameHead(e, f)
    ensures NotedEntry(table, ignoreUnknown, d, f)
  {
    hide TagTable.ValidTable, TagTable.Named, PlainEntry;
  }

  lemma {:induction false} NotedDirAgain(table: seq<TagTable.Row>, ignoreUnknown: bool, d: Ifd, a: seq<Entry>,
                                         b: seq<Entry>)
    requires TagTable.ValidTable(table) && NotedDir(table, ignoreUnknown, a, d) && SameButNote(a, b)
    ensures NotedDir(table, ignoreUnknown, SortedEntries(b), d)
  {
    hide TagTable.ValidTable, NotedEntry, SortedEntries, SameHead;
    SameTags(a, b);
    SortedEntriesDistinct(b);
    SortedEntriesMeaning(b);
    var ss := SortedEntries(b);
    forall k | 0 <= k < |ss| ensures NotedEntry(table, ignoreUnknown, d, ss[k]) {
      assert ss[k] in multiset(ss);
      assert ss[k] in b;
      var l :| 0 <= l < |b| && b[l] == ss[k];
      NotedEntryAgain(table, ignoreUnknown, d, a[l], b[l]);
    }
  }

  lemma {:induction false} RoundNoted(m: Model, i: Ifd, j: nat, off: nat, table: seq<TagTable.Row>, ignoreUnknown: bool)
    requires TagTable.ValidTable(table) && Noted(table, ignoreUnknown, m.contents) && NoteFits(m) && OnlyNote(m, i, j)
    ensures Noted(table, ignoreUnknown, Round(m, i, j, off).contents)
  {
    hide TagTable.ValidTable, NotedDir, NoteFits, SortedEntries, SameButNote, NotedContents;
    NotedIsSame(m, i, j, off, Ifd0);
    NotedDirAgain(table, ignoreUnknown, Ifd0, m.contents.Of(Ifd0), NotedContents(m, i, j, off).Of(Ifd0));
    NotedIsSame(m, i, j, off, Ifd1);
    NotedDirAgain(table, ignoreUnknown, Ifd1, m.contents.Of(Ifd1), NotedContents(m, i, j, off).Of(Ifd1));
    NotedIsSame(m, i, j, off, ExifIfd);
    NotedDirAgain(table, ignoreUnknown, ExifIfd, m.contents.Of(ExifIfd), NotedContents(m, i, j, off).Of(ExifIfd));
    NotedIsSame(m, i, j, off, GpsIfd);
    NotedDirAgain(table, ignoreUnknown, GpsIfd, m.contents.Of(GpsIfd), NotedContents(m, i, j, off).Of(GpsIfd));
    NotedIsSame(m, i, j, off, InteropIfd);
    NotedDirAgain(table, ignoreUnknown, InteropIfd, m.contents.Of(InteropIfd),
      NotedContents(m, i, j, off).Of(InteropIfd));
  }

  lemma {:induction false} RoundFits(m: Model, i: Ifd, j: nat, off: nat)
    requires NoteFits(m) && j < |m.contents.Of(i)|
    ensures NoteFits(Round(m, i, j, off))
  {
    hide MakerNote.Image, MakerNote.SumCounts, MakerNoteRoundTrip.EntryOk, SortedAll, NotedContents;
    ImageLength(m.md.value, off);
  }

  lemma {:induction false} SortedHasTag(es: seq<Entry>, tag: int)
    ensures HasTag(SortedEntries(es), tag) <==> HasTag(es, tag)
  {
    hide SortedEntries;
    SortedEntriesMeaning(es);
    var ss := SortedEntries(es);
    if HasTag(ss, tag) {
      var k :| 0 <= k < |ss| && ss[k].tag == tag;
      assert ss[k] in multiset(ss);
      assert ss[k] in es;
    }
    if HasTag(es, tag) {
      var k :| 0 <= k < |es| && es[k].tag == tag;
      assert es[k] in multiset(es);
      assert es[k] in ss;
    }
  }

  lemma {:induction false} SameHasTag(a: seq<Entry>, b: seq<Entry>, tag: int)
    requires SameButNote(a, b)
    ensures HasTag(a, tag) <==> HasTag(b, tag)
  {
    hide SameButNote, SameHead;
    SameTags(a, b);
    assert |a| == |b| by { SameSizes(a, b); }
    if HasTag(a, tag) {
      var k :| 0 <= k < |a| && a[k].tag == tag;
      assert b[k].tag == tag;
    }
    if HasTag(b, tag) {
      var k :| 0 <= k < |b| && b[k].tag == tag;
      assert a[k].tag == tag;
    }
  }

  lemma {:induction false} SameSizes(a: seq<Entry>, b: seq<Entry>)
    requires SameButNote(a, b)
    ensures |a| == |b|
  {
  }

  /** The note is still the only one; sorting may have moved its entry. */
  lemma {:induction false} RoundNote(m: Model, i: Ifd, j: nat, off: nat) returns (k: nat)
    requires NoteFits(m) && OnlyNote(m, i, j)
    ensures OnlyNote(Round(m, i, j, off), i, k)
  {
    hide NoteFits, SortedEntries, SameButNote, NotedContents, SortedAll;
    var r := Round(m, i, j, off);
    forall d: Ifd ensures HasTag(r.contents.Of(d), TAG_MAKER_NOTE) <==> HasTag(m.contents.Of(d), TAG_MAKER_NOTE) {
      NotedIsSame(m, i, j, off, d);
      SameHasTag(m.contents.Of(d), NotedContents(m, i, j, off).Of(d), TAG_MAKER_NOTE);
      SortedAllOf(NotedContents(m, i, j, off), d);
      SortedHasTag(NotedContents(m, i, j, off).Of(d), TAG_MAKER_NOTE);
    }
    assert HasTag(m.contents.Of(i), TAG_MAKER_NOTE);
    k :| 0 <= k < |r.contents.Of(i)| && r.contents.Of(i)[k].tag == TAG_MAKER_NOTE;
  }

  // ---- The length of the file ----

  /** As many bytes outside of the records. */
  predicate SameOutside(a: seq<Entry>, b: seq<Entry>)
  {
    |a| == |b| && forall k :: 0 <= k < |a| ==> Outside(a[k]) == Outside(b[k])
  }

  lemma {:induction false} TotalSame(a: seq<Entry>, b: seq<Entry>)
    requires SameOutside(a, b)
    ensures TotalOutside(a) == TotalOutside(b)
    decreases |a|
  {
    hide Outside;
    if a != [] {
      TotalSame(a[1..], b[1..]);
    }
  }

  lemma {:induction false} NoteOutside(m: Model, e: Entry, off: nat, m': Model, e': Entry, off': nat)
    requires NoteFits(m) && NoteFits(m') && m'.md.value.(offset := 0) == m.md.value.(offset := 0)
    requires FormatSize(e.format) == 1 && e'.format == e.format
    ensures Outside(NoteEntryAt(m, e, off)) == Outside(NoteEntryAt(m', e', off'))
  {
    hide MakerNote.Image, NoteFits;
    NoteOfModel(m);
    NoteOfModel(m');
    NoteVersion(m);
    NoteVersion(m');
    ImageLength(m.md.value.(offset := 0), off);
    ImageLength(m'.md.value.(offset := 0), off');
    assert m.md.value.(offset := 0).(offset := off) == NoteAtOffset(m, off);
    assert m'.md.value.(offset := 0).(offset := off') == NoteAtOffset(m', off');
  }

  lemma {:induction false} NoteVersion(m: Model)
    requires NoteFits(m)
    ensures m.md.Some? && !m.md.value.version.Unrecognized?
  {
  }

  lemma {:induction false} SavedOutside(x: Input, m: Model, i: Ifd, j: nat, off: nat, d: Ifd)
    requires ValidInput(x) && NoteFits(m) && OnlyNote(m, i, j)
    requires NotedDir(x.table, x.ignoreUnknown, m.contents.Of(d), d)
    ensures SameOutside(SavedEntries(m, d), NotedContents(m, i, j, off).Of(d))
  {
    hide TagTable.ValidTable, NoteFits, NotedEntry, SavedEntries, EntryItem, NoteEntryAt, Outside;
    EffectiveFor(m, i, j);
    var at: nat := EntryItem(m, i, j).ptr;
    NotedSaved(x, m, i, j, at, d);
    if d == i {
      var e := m.contents.Of(i)[j];
      assert NotedEntry(x.table, x.ignoreUnknown, i, e);
      NoteFormat(x.table, x.ignoreUnknown, i, e);
      NoteOutside(m, e, at, m, e, off);
    }
  }

  lemma {:induction false} NoteFormat(table: seq<TagTable.Row>, ignoreUnknown: bool, i: Ifd, e: Entry)
    requires TagTable.ValidTable(table) && NotedEntry(table, ignoreUnknown, i, e) && e.tag == TAG_MAKER_NOTE
    ensures FormatSize(e.format) == 1
  {
    hide TagTable.ValidTable, TagTable.Named;
  }

  lemma {:induction false} RoundSize(x: Input, m: Model, i: Ifd, j: nat, off: nat, d: Ifd)
    requires ValidInput(x) && NoteFits(m) && OnlyNote(m, i, j) && Noted(x.table, x.ignoreUnknown, m.contents)
    ensures SectionSize(Round(m, i, j, off), d) == SectionSize(m, d)
  {
    hide TagTable.ValidTable, NoteFits, NotedDir, SavedEntries, NotedContents, SortedAll, TotalOutside, Count, Present;
    var r := Round(m, i, j, off);
    RoundShape(m, i, j, off, d);
    NotedOf(x.table, x.ignoreUnknown, m.contents, d);
    SavedOutside(x, m, i, j, off, d);
    TotalSame(SavedEntries(m, d), NotedContents(m, i, j, off).Of(d));
    RoundNoted(m, i, j, off, x.table, x.ignoreUnknown);
    RoundFits(m, i, j, off);
    NotedOf(x.table, x.ignoreUnknown, r.contents, d);
    var k := RoundNote(m, i, j, off);
    SavedOutside(x, r, i, k, off, d);
    TotalSame(SavedEntries(r, d), NotedContents(r, i, k, off).Of(d));
    NotedOf(x.table, x.ignoreUnknown, m.contents, i);
    NotedDistinct(x.table, x.ignoreUnknown, m.contents.Of(i), i);
    RoundKeeps(m, i, j, off, k);
    SortedAllOf(NotedContents(m, i, j, off), d);
    TotalSorted(NotedContents(m, i, j, off).Of(d));
  }

  lemma {:induction false} NotedDistinct(table: seq<TagTable.Row>, ignoreUnknown: bool, es: seq<Entry>, d: Ifd)
    requires TagTable.ValidTable(table) && NotedDir(table, ignoreUnknown, es, d)
    ensures DistinctTags(es)
  {
    hide TagTable.ValidTable, NotedEntry, DistinctTags;
  }

  lemma {:induction false} NotedOf(table: seq<TagTable.Row>, ignoreUnknown: bool, c: Contents, d: Ifd)
    requires TagTable.ValidTable(table) && Noted(table, ignoreUnknown, c)
    ensures NotedDir(table, ignoreUnknown, c.Of(d), d)
  {
    hide TagTable.ValidTable, NotedDir;
  }

  lemma {:induction false} RoundShape(m: Model, i: Ifd, j: nat, off: nat, d: Ifd)
    requires NoteFits(m) && OnlyNote(m, i, j)
    ensures var r := Round(m, i, j, off);
      && Present(r.contents, r.thumb, d) == Present(m.contents, m.thumb, d)
      && Count(r.contents, r.thumb, d) == Count(m.contents, m.thumb, d)
  {
    hide NoteFits, SortedEntries, TotalOutside, NoteEntryAt;
    var c := NotedContents(m, i, j, off);
    TotalSorted(c.ifd0);
    TotalSorted(c.ifd1);
    TotalSorted(c.exif);
    TotalSorted(c.gps);
    TotalSorted(c.interop);
  }

  /** The note's entry already holds the note's bytes for `off`. */
  lemma {:induction false} RoundKeeps(m: Model, i: Ifd, j: nat, off: nat, k: nat)
    requires NoteFits(m) && OnlyNote(m, i, j) && NoteFits(Round(m, i, j, off)) && OnlyNote(Round(m, i, j, off), i, k)
    requires DistinctTags(m.contents.Of(i))
    ensures NotedContents(Round(m, i, j, off), i, k, off) == Round(m, i, j, off).contents
  {
    hide NoteFits, MakerNote.Image, SortedEntries;
    NoteVersion(m);
    var r := Round(m, i, j, off);
    var c := NotedContents(m, i, j, off);
    SortedAllOf(c, i);
    SortedEntriesMeaning(c.Of(i));
    var e := r.contents.Of(i)[k];
    assert e in multiset(r.contents.Of(i));
    assert e in c.Of(i);
    var l :| 0 <= l < |c.Of(i)| && c.Of(i)[l] == e;
    NoteVersion(r);
    NoteHolds(m, i, j, off, l);
    assert NoteAtOffset(r, off) == NoteAtOffset(m, off);
    assert r.contents.Of(i)[k := NoteEntryAt(r, e, off)] == r.contents.Of(i);
  }

  /** The entry with the maker-note tag holds them. */
  lemma {:induction false} NoteHolds(m: Model, i: Ifd, j: nat, off: nat, l: nat)
    requires NoteFits(m) && OnlyNote(m, i, j) && l < |m.contents.Of(i)| && DistinctTags(m.contents.Of(i))
    requires NotedContents(m, i, j, off).Of(i)[l].tag == TAG_MAKER_NOTE
    ensures m.md.Some? && !m.md.value.version.Unrecognized?
    ensures var e := NotedContents(m, i, j, off).Of(i)[l]; NoteEntryAt(m, e, off) == e
  {
    hide MakerNote.Image, MakerNoteRoundTrip.Savable;
    NoteVersion(m);
    assert l == j;
  }

  /** The file has the same length after a round, although sorting may move the note. */
  lemma {:induction false} RoundLength(x: Input, m: Model, i: Ifd, j: nat, off: nat)
    requires ValidInput(x) && NoteFits(m) && OnlyNote(m, i, j) && Noted(x.table, x.ignoreUnknown, m.contents)
    ensures |FileOf(Round(m, i, j, off))| == |FileOf(m)|
  {
    hide SectionSize, FileOf, NotedContents, SortedAll, NoteFits, Noted, ValidInput;
    var r := Round(m, i, j, off);
    FileLength(m);
    FileLength(r);
    RoundSize(x, m, i, j, off, Ifd0);
    RoundSize(x, m, i, j, off, ExifIfd);
    RoundSize(x, m, i, j, off, InteropIfd);
    RoundSize(x, m, i, j, off, GpsIfd);
    RoundSize(x, m, i, j, off, Ifd1);
  }

  lemma {:induction false} RoundInOrderAgain(m: Model, i: Ifd, j: nat, off: nat)
    requires NoteFits(m) && OnlyNote(m, i, j)
    ensures forall d: Ifd :: EntriesAscend(Round(m, i, j, off).contents.Of(d))
  {
    hide NoteFits, SortedEntries, EntriesAscend, NotedContents, SortedAll;
    forall d: Ifd ensures EntriesAscend(Round(m, i, j, off).contents.Of(d)) {
      SortedAllOf(NotedContents(m, i, j, off), d);
      SortedEntriesMeaning(NotedContents(m, i, j, off).Of(d));
    }
  }

  /** The file loaded into a new object, its note into the new handler `n0`, and both saved again. */
  ghost function NotedAgain(f: bytes, order: ByteOrder, table: seq<TagTable.Row>, ignoreUnknown: bool,
                            n0: MakerNote.Note): bytes
    requires TagTable.ValidTable(table)
  {
    var r := LoadFile(order, FRESH, f, table, ignoreUnknown);
    if FindExif(f).None? then []
    else
      var n := ExifDataObject.Interpreted(n0, r.order, r.st.mnote, FindExif(f).value);
      FileOf(Model(r.order, r.st.contents, r.st.thumb, Some(n), false))
  }

  lemma {:induction false} AgainIsRound(order: ByteOrder, m: Model, table: seq<TagTable.Row>, ignoreUnknown: bool,
                                        i: Ifd, j: nat,
                                        n0: MakerNote.Note) returns (off: nat)
    requires TagTable.ValidTable(table) && Noted(table, ignoreUnknown, m.contents) && NoteFits(m) && OnlyNote(m, i, j)
    requires |FileOf(m)| <= 0xfffe && HandlerFor(n0, m.md.value)
    ensures NotedAgain(FileOf(m), order, table, ignoreUnknown, n0) == FileOf(Round(m, i, j, off))
  {
    hide LoadFile, FileOf, Noted, NoteFits, HandlerFor, NotedContents, SortedAll, TagTable.ValidTable;
    hide ExifDataObject.Interpreted, FindExif;
    LiesInItself(FileOf(m));
    NoteOfModel(m);
    NotedRoundTrip(order, m, FileOf(m), table, ignoreUnknown, i, j, n0);
    off := LoadFile(order, FRESH, FileOf(m), table, ignoreUnknown).st.mnote;
  }

  /**
   Canonical form with an interpreted note: one load and save, of the entries and of the note, puts the file into a form
   of the same length that a further one reproduces byte for byte; a file whose entries are in order is in it already.
   */
  lemma {:induction false} NotedCanonical(order: ByteOrder, m: Model, table: seq<TagTable.Row>, ignoreUnknown: bool,
                                          i: Ifd, j: nat,
                                          n0: MakerNote.Note)
    requires TagTable.ValidTable(table) && Noted(table, ignoreUnknown, m.contents) && NoteFits(m) && OnlyNote(m, i, j)
    requires |FileOf(m)| <= 0xfffe && HandlerFor(n0, m.md.value)
    ensures var b := NotedAgain(FileOf(m), order, table, ignoreUnknown, n0);
      && NotedAgain(b, order, table, ignoreUnknown, n0) == b
      && |b| == |FileOf(m)|
      && ((forall d: Ifd :: EntriesAscend(m.contents.Of(d))) ==> b == FileOf(m))
  {
    hide LoadFile, FileOf, Noted, NoteFits, HandlerFor, NotedContents, SortedAll, TagTable.ValidTable, NotedAgain;
    hide EntriesAscend;
    NoteOfModel(m);
    var off := AgainIsRound(order, m, table, ignoreUnknown, i, j, n0);
    var r := Round(m, i, j, off);
    RoundLength(Input([], m.order, table, ignoreUnknown), m, i, j, off);
    RoundNoted(m, i, j, off, table, ignoreUnknown);
    RoundFits(m, i, j, off);
    var k := RoundNote(m, i, j, off);
    SameHandler(n0, m.md.value, off);
    var off' := AgainIsRound(order, r, table, ignoreUnknown, i, k, n0);
    RoundInOrderAgain(m, i, j, off);
    RoundInOrder(r, i, k, off');
    if forall d: Ifd :: EntriesAscend(m.contents.Of(d)) {
      RoundInOrder(m, i, j, off);
    }
  }

  lemma {:induction false} SameHandler(n0: MakerNote.Note, n: MakerNote.Note, off: nat)
    requires HandlerFor(n0, n)
    ensures HandlerFor(n0, n.(offset := off))
  {
  }
}
