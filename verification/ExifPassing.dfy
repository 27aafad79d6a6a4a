/** From one object to another: what is saved from the one and loaded into the other. */
module ExifPassing {
  import opened Bytes
  import opened ExifTypes
  import opened ExifLayout
  import opened ExifLoad
  import opened ExifSorted
  import opened ExifRoundTrip
  import opened ExifTheorems
  import opened ExifEmbedding
  import opened ExifNoteFile
  import opened ExifDataObject
  import ExifEndToEnd
  import MakerNote
  import MakerNoteObject
  import TagTable

  lemma {:induction false} PlainDetermined(m: Model, table: seq<TagTable.Row>, ignoreUnknown: bool)
    requires TagTable.ValidTable(table) && KeepsEntries(m) && Plain(table, ignoreUnknown, m.contents)
    ensures FileDetermined(m)
  {
    hide Plain, Savable, FileDetermined, TagTable.ValidTable;
    var x := Input([], m.order, table, ignoreUnknown);
    PlainSavable(x, m);
    ExifEndToEnd.SavableIsDetermined(x, m);
  }

  lemma {:induction false} NotedDetermined(m: Model, table: seq<TagTable.Row>, ignoreUnknown: bool)
    requires TagTable.ValidTable(table) && NoteFits(m) && Noted(table, ignoreUnknown, m.contents)
    ensures FileDetermined(m)
  {
    hide Noted, NoteFits, Savable, FileDetermined, TagTable.ValidTable;
    var x := Input([], m.order, table, ignoreUnknown);
    NotedSavable(x, m);
    ExifEndToEnd.SavableIsDetermined(x, m);
  }

  /**
   Without a note, or with one that is not to be changed: the second object ends up with order, thumbnail and entries of
   the first, in tag order.
   */
  method Pass(e: ExifData, g: ExifData) returns (d: bytes)
    requires e != g && (e.md == null || e.keepNote) && g.md == null && g.LoadState() == FRESH
    requires TagTable.ValidTable(g.table)
    requires Plain(g.table, g.ignoreUnknown, e.contents) && |FileOf(e.TheModel())| <= 0xfffe
    modifies e, e.md, g
    ensures d == FileOf(old(e.TheModel()))
    ensures g.order == old(e.order) && g.thumb == old(e.thumb) && g.contents == SortedAll(old(e.contents))
    ensures g.md == null
  {
    hide FileOf, LoadFile, Plain, SortedAll, FileDetermined, TagTable.ValidTable, Interpreted, HasNote, SavedContents;
    ghost var m := e.TheModel();
    PlainDetermined(m, g.table, g.ignoreUnknown);
    d := e.SaveData();
    LiesInItself(d);
    PlainRoundTrip(g.order, m, d, g.table, g.ignoreUnknown);
    var complete := g.LoadData(d, null);
  }

  lemma {:induction false} NoteIsThere(m: Model, i: Ifd, j: nat, off: nat)
    requires NoteFits(m) && OnlyNote(m, i, j)
    ensures HasNote(SortedAll(NotedContents(m, i, j, off)))
  {
    hide NoteFits, SortedEntries, MakerNote.Image, HasTag;
    var c := NotedContents(m, i, j, off);
    var es := c.Of(i);
    assert es[j].tag == TAG_MAKER_NOTE;
    SortedEntriesMeaning(es);
    assert es[j] in multiset(es);
    assert es[j] in SortedEntries(es);
    var k :| 0 <= k < |SortedEntries(es)| && SortedEntries(es)[k] == es[j];
    TagIsThere(SortedEntries(es), k);
  }

  lemma {:induction false} TagIsThere(es: seq<Entry>, k: nat)
    requires k < |es|
    ensures HasTag(es, es[k].tag)
  {
  }

  /** With a note: the new handler that the second object is given ends up with the note of the first. */
  method PassWithNote(e: ExifData, g: ExifData, handler: MakerNoteObject.MnoteData, ghost i: Ifd, ghost j: nat)
    returns (d: bytes)
    requires e != g && g.LoadState() == FRESH && TagTable.ValidTable(g.table)
    requires Noted(g.table, g.ignoreUnknown, e.contents) && NoteFits(e.TheModel()) && OnlyNote(e.TheModel(), i, j)
    requires |FileOf(e.TheModel())| <= 0xfffe
    requires handler != e.md && handler != g.md && e.md != null && HandlerFor(handler.Value(), e.md.Value())
    modifies e, e.md, g, g.md, handler
    ensures NoteFits(old(e.TheModel())) && d == FileOf(old(e.TheModel()))
    ensures g.order == old(e.order) && g.thumb == old(e.thumb)
    ensures g.contents == SortedAll(NotedContents(old(e.TheModel()), i, j, g.offsetMnote))
    ensures g.md == handler && handler.Value() == NoteAtOffset(old(e.TheModel()), g.offsetMnote)
  {
    hide FileOf, LoadFile, Noted, NoteFits, SortedAll, FileDetermined, TagTable.ValidTable, Interpreted, HasNote;
    hide SavedContents;
    hide NotedContents, HandlerFor;
    ghost var m := e.TheModel();
    NotedDetermined(m, g.table, g.ignoreUnknown);
    ghost var n0 := handler.Value();
    d := e.SaveData();
    LiesInItself(d);
    NotedRoundTrip(g.order, m, d, g.table, g.ignoreUnknown, i, j, n0);
    var complete := g.LoadData(d, handler);
    NoteIsThere(m, i, j, g.offsetMnote);
  }
}
