/** What the loader reads from records that are in place. */
module ExifWalk {
  import opened Bytes
  import opened Tiff
  import opened ExifTypes
  import opened ExifLoad
  import TagTable

  /** The entry a record stands for. */
  function EntryOf(i: Item): Entry
  {
    Entry(i.slot.tag, i.slot.format, i.slot.components, i.slot.payload)
  }

  /** Where the value of the record at `pos` lies. */
  function ValueAt(i: Item, pos: nat): int
  {
    if |i.slot.payload| > 4 then i.ptr else pos + 8
  }

  /** An entry's record at `pos`, with a value that lies where it says. */
  ghost predicate EntryPlaced(x: Input, ifd: Ifd, i: Item, pos: nat)
    requires ValidInput(x)
  {
    && LiesAt(x.d, pos, Record(i, x.order))
    && 0 <= i.slot.tag < U16 && !Special(i.slot.tag)
    && 1 <= i.slot.format <= 12
    && 0 < i.slot.components <= 65536
    && |i.slot.payload| == ValueBytes(i.slot.format, i.slot.components)
    && (|i.slot.payload| > 4 ==> i.ptr >= 0 && LiesAt(x.d, i.ptr, i.slot.payload))
    && (!x.ignoreUnknown || TagTable.Named(x.table, i.slot.tag, ifd))
  }

  /** A pointer record at `pos`. */
  ghost predicate PointerPlaced(x: Input, tag: int, v: nat, pos: nat)
  {
    && v < |x.d| && 0 <= tag < U16 && Special(tag)
    && LiesAt(x.d, pos, Record(Item(Slot(tag, FMT_LONG, 1, EncLong(v, x.order)), 0), x.order))
  }

  lemma {:induction false} PointerRead(x: Input, tag: int, v: nat, pos: nat)
    requires ValidInput(x) && PointerPlaced(x, tag, v, pos)
    ensures pos + 12 <= |x.d| && GetShort(x.d, pos, x.order) == tag && GetLong(x.d, pos + 8, x.order) == v
  {
    hide Record, GetShort, GetLong, Special, TagTable.ValidTable, EncShort;
    var i := Item(Slot(tag, FMT_LONG, 1, EncLong(v, x.order)), 0);
    RecordBlocks(i, x.order, x.d, pos);
    ShortAt(x.d, pos, tag, x.order);
    ValueFieldAt(EncLong(v, x.order), 0, x.order, x.d, pos + 8);
    LongAt(x.d, pos + 8, v, x.order);
  }

  lemma {:induction false} TagRead(x: Input, i: Item, pos: nat)
    requires LiesAt(x.d, pos, Record(i, x.order)) && 0 <= i.slot.tag < U16
    ensures pos + 12 <= |x.d| && GetShort(x.d, pos, x.order) == i.slot.tag
  {
    RecordBlocks(i, x.order, x.d, pos);
    ShortAt(x.d, pos, i.slot.tag, x.order);
  }

  lemma {:induction false} FormatNonzero(x: Input, i: Item, pos: nat)
    requires LiesAt(x.d, pos, Record(i, x.order)) && 1 <= i.slot.format <= 12
    ensures pos + 12 <= |x.d| && (x.d[pos + 2] != 0 || x.d[pos + 3] != 0)
  {
    RecordBlocks(i, x.order, x.d, pos);
    ShortAt(x.d, pos + 2, i.slot.format, x.order);
  }

  lemma {:induction false} LoadFields(x: Input, pos: nat, f: Fields, i: Item, at: nat)
    requires pos + 12 <= |x.d| && f == ReadFields(x.d, pos, x.order)
    requires f.tag == i.slot.tag && f.format == i.slot.format && f.components == i.slot.components
    requires 1 <= i.slot.format <= 12 && 0 < i.slot.components <= 65536
    requires |i.slot.payload| == ValueBytes(i.slot.format, i.slot.components)
    requires at == (if |i.slot.payload| > 4 then f.stored else pos + 8)
    requires LiesAt(x.d, at, i.slot.payload)
    ensures LoadEntry(x, pos) == Some(Loaded(EntryOf(i), at))
  {
    hide ReadFields;
    LiesAtSlice(x.d, at, i.slot.payload);
  }

  /** The record of an entry gives the entry back, and the place of its value. */
  lemma {:induction false} LoadEntryPlaced(x: Input, ifd: Ifd, i: Item, pos: nat)
    requires ValidInput(x) && EntryPlaced(x, ifd, i, pos)
    ensures pos + 12 <= |x.d| && ValueAt(i, pos) >= 0 && LoadEntry(x, pos) == Some(Loaded(EntryOf(i), ValueAt(i, pos)))
  {
    hide Record, ReadFields, LoadEntry, TagTable.Named, TagTable.ValidTable, ValueBytes;
    RecordFields(i, x.order, x.d, pos);
    LoadFields(x, pos, ReadFields(x.d, pos, x.order), i, ValueAt(i, pos));
  }

  /** The state after an entry has been stored. */
  function Stored(st: State, ifd: Ifd, e: Entry, at: nat): State
  {
    State(st.contents.With(ifd, AddEntry(st.contents.Of(ifd), e)), st.used, st.thumb,
          if e.tag == TAG_MAKER_NOTE then at else st.mnote, st.visits)
  }

  lemma {:induction false} OrdinaryStores(st: State, ifd: Ifd, x: Input, pos: nat, l: Loaded)
    requires ValidInput(x) && pos + 12 <= |x.d| && LoadEntry(x, pos) == Some(l)
    requires x.d[pos + 2] != 0 || x.d[pos + 3] != 0
    requires !x.ignoreUnknown || TagTable.Named(x.table, GetShort(x.d, pos, x.order), ifd)
    ensures Ordinary(st, ifd, x, pos) == Stored(st, ifd, l.e, l.at)
  {
    hide LoadEntry, TagTable.Named, GetShort, AddEntry, TagTable.ValidTable;
  }

  lemma {:induction false} OrdinaryPlaced(st: State, ifd: Ifd, x: Input, i: Item, pos: nat)
    requires ValidInput(x) && EntryPlaced(x, ifd, i, pos)
    ensures pos + 12 <= |x.d| && ValueAt(i, pos) >= 0
    ensures Ordinary(st, ifd, x, pos) == Stored(st, ifd, EntryOf(i), ValueAt(i, pos))
  {
    hide Record, LoadEntry, GetShort, Ordinary, Stored, TagTable.Named, TagTable.ValidTable;
    LoadEntryPlaced(x, ifd, i, pos);
    FormatNonzero(x, i, pos);
    TagRead(x, i, pos);
    OrdinaryStores(st, ifd, x, pos, Loaded(EntryOf(i), ValueAt(i, pos)));
  }

  /** One turn of the loop for an entry's record. */
  lemma {:induction false} StepEntry(l: Loop, ifd: Ifd, x: Input, at: nat, n: nat, k: nat, path: seq<nat>, i: Item)
    requires ValidInput(x) && k < n && at + 12 * n <= |x.d| && EntryPlaced(x, ifd, i, at + 12 * k)
    ensures ValueAt(i, at + 12 * k) >= 0
    ensures StepRecord(l, ifd, x, at, n, k, path) == l.(st := Stored(l.st, ifd, EntryOf(i), ValueAt(i, at + 12 * k)))
  {
    hide Record, LoadEntry, GetShort, Ordinary, Stored, TagTable.Named, TagTable.ValidTable, EntryOf, ValueAt;
    OrdinaryPlaced(l.st, ifd, x, i, at + 12 * k);
    TagRead(x, i, at + 12 * k);
  }

  /** One turn of the loop for a pointer record. */
  lemma {:induction false} StepPointer(l: Loop, ifd: Ifd, x: Input, at: nat, n: nat, k: nat, path: seq<nat>, tag: int,
                                       v: nat)
    requires ValidInput(x) && k < n && at + 12 * n <= |x.d| && PointerPlaced(x, tag, v, at + 12 * k)
    ensures StepRecord(l, ifd, x, at, n, k, path) == StepSpecial(l, ifd, x, tag, v, n, path)
  {
    hide GetShort, GetLong, Ordinary, StepSpecial, TagTable.Named, TagTable.ValidTable;
    PointerRead(x, tag, v, at + 12 * k);
  }

  /** A run of the loop is the chain of its turns. */
  lemma {:induction false} Chain(ls: seq<Loop>, ifd: Ifd, x: Input, at: nat, n: nat, k: nat, path: seq<nat>)
    requires ValidInput(x) && k <= n && at + 12 * n <= |x.d| && |ls| == n + 1
    requires forall j :: k <= j < n ==> !ls[j].stop && StepRecord(ls[j], ifd, x, at, n, j, path) == ls[j + 1]
    ensures LoadRecords(ls[k], ifd, x, at, n, k, path) == ls[n].st
    decreases n - k
  {
    hide StepRecord, ValidInput;
    if k < n {
      Chain(ls, ifd, x, at, n, k + 1, path);
    }
  }
}
