/** Where the parts meet: saving what can be loaded back, and repairing what has been loaded. */
module ExifEndToEnd {
  import opened Bytes
  import opened ExifTypes
  import opened ExifLayout
  import opened ExifLoad
  import opened ExifSorted
  import opened ExifPositions
  import opened ExifRoundTrip
  import opened ExifTheorems
  import opened ExifLoadComplete
  import EntryFix
  import ContentFix
  import RepairObject
  import ExifDataObject
  import MakerNoteObject
  import TagTable

  lemma {:induction false} ItemTagRange(x: Input, m: Model, i: Ifd, j: nat)
    requires ValidInput(x) && DirSavable(x, m, i) && j < |DirItems(m, i)|
    ensures 0 <= DirItems(m, i)[j].slot.tag < U16
  {
    hide DirItems, ExtraItems, EntryItem, TagTable.ValidTable, TagTable.Named, Special, Effs, ValueStart;
    DirItemIs(m, i, j);
    ItemCount(m, i);
    if j < |m.contents.Of(i)| {
      EntryItemTag(m, i, j);
      assert EntrySavable(x, i, m.contents.Of(i)[j], SavedEntries(m, i)[j]);
    } else {
      SpecialTagRange(m, i, j - |m.contents.Of(i)|);
    }
  }

  lemma {:induction false} DirIsDetermined(x: Input, m: Model, i: Ifd)
    requires ValidInput(x) && DirSavable(x, m, i)
    ensures ExifDataObject.DirDetermined(m, i)
  {
    hide DirItems, TagTable.ValidTable, TagTable.Named, Special, Effs, ValueStart, DistinctItems, ValueBytes;
    DirDistinct(x, m, i);
    forall k | 0 <= k < |SavedEntries(m, i)| ensures ExifDataObject.Determined(SavedEntries(m, i)[k]) {
      assert EntrySavable(x, i, m.contents.Of(i)[k], SavedEntries(m, i)[k]);
    }
    forall k | 0 <= k < |DirItems(m, i)| ensures 0 <= DirItems(m, i)[k].slot.tag < U16 {
      ItemTagRange(x, m, i, k);
    }
  }

  /** What can be loaded back is written in full: the save routine's output is then the specified file. */
  lemma {:induction false} SavableIsDetermined(x: Input, m: Model)
    requires ValidInput(x) && Savable(x, m)
    ensures ExifDataObject.FileDetermined(m)
  {
    hide DirSavable, ExifDataObject.DirDetermined, ValidInput;
    DirIsDetermined(x, m, Ifd0);
    DirIsDetermined(x, m, ExifIfd);
    DirIsDetermined(x, m, InteropIfd);
    DirIsDetermined(x, m, GpsIfd);
    DirIsDetermined(x, m, Ifd1);
  }

  // ---- Loading with the repairs that follow the specification ----

  predicate AllExact(es: seq<Entry>)
  {
    forall k :: 0 <= k < |es| ==> Exact(es[k])
  }

  lemma {:induction false} ExactRepairable(d: RepairObject.DataSetting, i: Ifd, es: seq<Entry>)
    requires TagTable.ValidTable(d.table) && ContentFix.ValidSetting(RepairObject.SettingFor(d, i))
    requires !ContentFix.MustBe(RepairObject.SettingFor(d, i), EntryFix.TAG_USER_COMMENT) && AllExact(es)
    ensures RepairObject.DirRepairable(d, i, es)
  {
    hide TagTable.ValidTable, FormatSize, ContentFix.MustBe, ContentFix.ValidSetting;
    forall k | 0 <= k < |es| ensures EntryFix.Sized(es[k]) && es[k].components <= |es[k].data| {
      ValueBytesIsProduct(es[k].format, es[k].components);
      assert Exact(es[k]);
    }
  }

  /** What the repairs need to know of the table and of initial values. */
  ghost predicate Specified(d: RepairObject.DataSetting)
  {
    && TagTable.ValidTable(d.table) && (forall k :: 0 <= k < |d.table| ==> d.table[k].tag >= 0)
    && forall i: Ifd :: ContentFix.ValidSetting(RepairObject.SettingFor(d, i))
                        && !ContentFix.MustBe(RepairObject.SettingFor(d, i), EntryFix.TAG_USER_COMMENT)
  }

  /** Every entry of a repaired directory belongs there, and no tag is there twice. */
  ghost predicate Clean(d: RepairObject.DataSetting, i: Ifd, es: seq<Entry>)
    requires TagTable.ValidTable(d.table)
  {
    DistinctTags(es) && forall k :: 0 <= k < |es| ==> ContentFix.MayStay(RepairObject.SettingFor(d, i), es[k].tag)
  }

  /**
   The repaired directory `r` has all mandatory tags exactly when they were in `es` already, or else tag 0 was not there
   to stay and, if mandatory itself, was the only one missing.
   */
  ghost predicate CompletedFrom(d: RepairObject.DataSetting, i: Ifd, es: seq<Entry>, r: seq<Entry>)
    requires TagTable.ValidTable(d.table)
  {
    var s := RepairObject.SettingFor(d, i);
    ContentFix.MandatoryPresent(s, r) <==>
      || ContentFix.MandatoryPresent(s, es)
      || (!ContentFix.ZeroStays(s, es) && (ContentFix.MustBe(s, 0) ==> ContentFix.OnlyZeroMissing(s, es)))
  }

  lemma {:induction false} DirClean(d: RepairObject.DataSetting, i: Ifd, es: seq<Entry>, thumb: bytes)
    requires TagTable.ValidTable(d.table) && ContentFix.ValidSetting(RepairObject.SettingFor(d, i))
    requires ContentFix.AllSized(es) && DistinctTags(es) && forall k :: 0 <= k < |d.table| ==> d.table[k].tag >= 0
    ensures var r := RepairObject.FixedDir(d, i, es, thumb);
      Clean(d, i, r) && (!(i.Ifd1? && thumb == []) ==> CompletedFrom(d, i, es, r))
  {
    hide TagTable.ValidTable, ContentFix.ValidSetting, ContentFix.Fixed, ContentFix.AllSized, ContentFix.MayStay;
    hide ContentFix.MandatoryPresent, ContentFix.ZeroStays, ContentFix.MustBe, ContentFix.OnlyZeroMissing;
    ContentFix.FixedMeaning(RepairObject.SettingFor(d, i), es);
    ContentFix.MandatoryExactly(RepairObject.SettingFor(d, i), es);
  }

  /** What a load of any bytes leaves in a fresh object has exact entries with distinct tags. */
  lemma {:induction false} LoadedIsExact(order: ByteOrder, b: bytes, table: seq<TagTable.Row>, ignoreUnknown: bool,
                                         i: Ifd)
    requires TagTable.ValidTable(table)
    ensures var es := LoadFile(order, FRESH, b, table, ignoreUnknown).st.contents.Of(i);
      AllExact(es) && DistinctTags(es)
  {
    hide LoadFile, TagTable.ValidTable, Exact, Special, DistinctTags, PieceOf, FromWalk;
    LoadedMeaning(order, b, table, ignoreUnknown, i);
  }

  /** Loaded contents, repaired: nothing in them is out of place, and a second repair would change nothing. */
  lemma {:induction false} RepairedContents(d: RepairObject.DataSetting, c: Contents, thumb: bytes)
    requires Specified(d) && forall i: Ifd :: AllExact(c.Of(i)) && DistinctTags(c.Of(i))
    ensures RepairObject.AllSizedIn(c)
    ensures var r := RepairObject.FixedContents(d, c, thumb);
      && (forall i: Ifd :: Clean(d, i, r.Of(i))) && (thumb == [] ==> r.ifd1 == [])
      && (forall i: Ifd :: !(i.Ifd1? && thumb == []) ==> CompletedFrom(d, i, c.Of(i), r.Of(i)))
      && RepairObject.AllSizedIn(r) && RepairObject.FixedContents(d, r, thumb) == r
  {
    hide TagTable.ValidTable, ContentFix.ValidSetting, ContentFix.MustBe, ContentFix.Fixed, ContentFix.AllSized;
    hide Clean, CompletedFrom, AllExact, DistinctTags;
    forall i: Ifd ensures ContentFix.AllSized(c.Of(i)) && RepairObject.DirRepairable(d, i, c.Of(i)) {
      ExactRepairable(d, i, c.Of(i));
    }
    forall i: Ifd ensures var f := RepairObject.FixedDir(d, i, c.Of(i), thumb);
      Clean(d, i, f) && (!(i.Ifd1? && thumb == []) ==> CompletedFrom(d, i, c.Of(i), f))
    {
      DirClean(d, i, c.Of(i), thumb);
    }
    assert c.Of(Ifd0) == c.ifd0 && c.Of(Ifd1) == c.ifd1 && c.Of(ExifIfd) == c.exif && c.Of(GpsIfd) == c.gps
      && c.Of(InteropIfd) == c.interop;
    RepairObject.FixedContentsTwice(d, c, thumb);
  }

  /**
   Whatever bytes are loaded into a fresh object, the repairs can be made. They leave in every directory
   only entries that belong there, with distinct tags, and all mandatory ones unless an entry with tag 0 is in the
   way; making them again would change nothing.
   */
  lemma {:induction false} LoadThenRepair(order: ByteOrder, b: bytes, d: RepairObject.DataSetting, ignoreUnknown: bool)
    requires Specified(d)
    ensures var l := LoadFile(order, FRESH, b, d.table, ignoreUnknown).st;
      && RepairObject.AllSizedIn(l.contents)
      && var r := RepairObject.FixedContents(d, l.contents, l.thumb);
      && (forall i: Ifd :: Clean(d, i, r.Of(i))) && (l.thumb == [] ==> r.ifd1 == [])
      && (forall i: Ifd :: !(i.Ifd1? && l.thumb == []) ==> CompletedFrom(d, i, l.contents.Of(i), r.Of(i)))
      && RepairObject.AllSizedIn(r) && RepairObject.FixedContents(d, r, l.thumb) == r
  {
    hide LoadFile, TagTable.ValidTable, ContentFix.ValidSetting, ContentFix.MustBe, Clean, CompletedFrom, AllExact;
    hide DistinctTags;
    hide RepairObject.FixedContents, RepairObject.AllSizedIn;
    var l := LoadFile(order, FRESH, b, d.table, ignoreUnknown).st;
    forall i: Ifd ensures AllExact(l.contents.Of(i)) && DistinctTags(l.contents.Of(i)) {
      LoadedIsExact(order, b, d.table, ignoreUnknown, i);
    }
    RepairedContents(d, l.contents, l.thumb);
  }

  /**
   exif_data_load_data on a fresh object, with the repairs asked for; `d` is made for the byte order that is loaded.
   */
  method LoadAndRepair(e: ExifDataObject.ExifData, b: bytes, handler: MakerNoteObject.MnoteData?,
                       d: RepairObject.DataSetting) returns (complete: bool)
    requires Specified(d) && d.table == e.table && e.LoadState() == FRESH
    modifies e, e.md, handler
    ensures var l := old(LoadFile(e.order, FRESH, b, e.table, e.ignoreUnknown));
      && complete == l.complete && e.order == l.order && e.thumb == l.st.thumb
      && RepairObject.AllSizedIn(l.st.contents)
      && e.contents == if complete then RepairObject.FixedContents(d.(order := e.order), l.st.contents, e.thumb)
        else l.st.contents
    ensures var l := old(LoadFile(e.order, FRESH, b, e.table, e.ignoreUnknown));
      if complete && ExifDataObject.HasNote(l.st.contents) then
        && e.md == (if handler != null then handler else old(e.md))
        && (e.md != null ==> e.md.Value() == ExifDataObject.Interpreted(
              old(if handler != null then handler.Value() else if e.md != null then e.md.Value()
                else ExifDataObject.NO_NOTE),
              l.order, l.st.mnote, FindExif(b).value))
      else
        e.md == old(e.md) && (e.md != null ==>
          e.md.Value() == old(if e.md == null then ExifDataObject.NO_NOTE else e.md.Value()))
  {
    hide LoadFile, TagTable.ValidTable, ContentFix.ValidSetting, ContentFix.MustBe, Clean, CompletedFrom;
    hide RepairObject.FixedContents, RepairObject.AllSizedIn, ExifDataObject.Interpreted, ExifDataObject.HasNote;
    LoadThenRepair(e.order, b, d, e.ignoreUnknown);
    complete := e.LoadData(b, handler);
    if complete {
      var c := RepairObject.FixData(d.(order := e.order), e.contents, e.thumb);
      e.contents := c;
    }
  }
}
