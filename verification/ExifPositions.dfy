/** Where the parts of a saved file lie. */
module ExifPositions {
  import opened Bytes
  import opened Tiff
  import opened ExifTypes
  import opened ExifLayout
  import opened ExifLoad
  import opened ExifWalk
  import opened ExifSorted
  import opened ExifDirectories
  import TagTable

  // ---- Sections ----

  lemma {:induction false} SectionLength(m: Model, i: Ifd)
    ensures Start(m, i) + |Section(m, i)| == End(m, i)
  {
    hide EntryValues, Next, DirItems, Present, Sorted;
    if Present(m.contents, m.thumb, i) {
      SectionPresent(m, i);
    }
  }

  lemma {:induction false} SectionPresent(m: Model, i: Ifd)
    requires Present(m.contents, m.thumb, i)
    ensures |Directory(Sorted(DirItems(m, i)), Next(m, i), m.order)| == 6 + 12 * Count(m.contents, m.thumb, i)
    ensures ValueStart(m, i) == Start(m, i) + 6 + 12 * Count(m.contents, m.thumb, i)
  {
    hide EntryValues, Next, Present, Sorted, Start, Count, EntrySlots, ExtraItems, Items;
  }

  /** Where a section lies in the file. */
  ghost predicate SectionPlaced(m: Model, f: bytes, i: Ifd)
  {
    LiesAt(f, 6 + Start(m, i), Section(m, i))
  }

  lemma {:induction false} Tail(f: bytes, a: bytes, b: bytes)
    requires LiesAt(f, 0, a + b)
    ensures LiesAt(f, 0, a) && LiesAt(f, |a|, b)
  {
    LiesConcat(f, 0, a, b);
  }

  /** The sections follow one another without gap or overlap. */
  lemma {:induction false} FileParts(m: Model)
    ensures SectionPlaced(m, FileOf(m), Ifd0) && SectionPlaced(m, FileOf(m), ExifIfd)
    ensures SectionPlaced(m, FileOf(m), InteropIfd)
    ensures SectionPlaced(m, FileOf(m), GpsIfd) && SectionPlaced(m, FileOf(m), Ifd1)
    ensures LiesAt(FileOf(m), 6 + End(m, Ifd1), m.thumb) && |FileOf(m)| == 6 + End(m, Ifd1) + |m.thumb|
    ensures LiesAt(FileOf(m), 0, FileHeader(m.order))
  {
    hide Section, LiesAt, FileHeader, Present, ValueStart, EntryValues;
    var h, s0, se, si, sg, s1 :=
      FileHeader(m.order), Section(m, Ifd0), Section(m, ExifIfd), Section(m, InteropIfd), Section(m, GpsIfd),
        Section(m, Ifd1);
    var f := FileOf(m);
    SectionLength(m, Ifd0);
    SectionLength(m, ExifIfd);
    SectionLength(m, InteropIfd);
    SectionLength(m, GpsIfd);
    SectionLength(m, Ifd1);
    LiesInItself(f);
    Tail(f, h + s0 + se + si + sg + s1, m.thumb);
    Tail(f, h + s0 + se + si + sg, s1);
    Tail(f, h + s0 + se + si, sg);
    Tail(f, h + s0 + se, si);
    Tail(f, h + s0, se);
    Tail(f, h, s0);
    ChainOfStarts(m);
  }

  lemma {:induction false} ChainOfStarts(m: Model)
    ensures Start(m, Ifd0) == 8 && Start(m, ExifIfd) == End(m, Ifd0) && Start(m, InteropIfd) == End(m, ExifIfd)
    ensures Start(m, GpsIfd) == End(m, InteropIfd) && Start(m, Ifd1) == End(m, GpsIfd)
  {
    hide End, Present;
  }

  lemma {:induction false} AfterHeader(f: bytes, p: nat, y: bytes)
    requires LiesAt(f, 6 + p, y)
    ensures LiesAt(f[6..], p, y)
  {
    var d := f[6..];
    forall k | 0 <= k < |y| ensures d[p + k] == y[k] {
      assert f[6 + p + k] == y[k];
    }
  }

  /** The parts of a directory that is present, counted from the byte-order mark. */
  lemma {:induction false} DirectoryParts(m: Model, d: bytes, i: Ifd, items: seq<Item>)
    requires Present(m.contents, m.thumb, i) && items == Sorted(DirItems(m, i))
    requires LiesAt(d, Start(m, i), Section(m, i))
    ensures |items| == Count(m.contents, m.thumb, i) && Start(m, i) + 6 + 12 * |items| == ValueStart(m, i) <= |d|
    ensures LiesAt(d, Start(m, i), EncShort(|items|, m.order))
    ensures LiesAt(d, Start(m, i) + 2, Records(items, |items|, m.order))
    ensures LiesAt(d, Start(m, i) + 2 + 12 * |items|, EncLong(Next(m, i), m.order))
    ensures LiesAt(d, ValueStart(m, i), EntryValues(m, i, ValueStart(m, i)))
  {
    hide *;
    var v := EntryValues(m, i, ValueStart(m, i));
    SectionBlocks(m, i, items);
    DirectorySpan(m, i, items);
    FourBlocks(d, Start(m, i), EncShort(|items|, m.order), Records(items, |items|, m.order),
      EncLong(Next(m, i), m.order), v);
    WithinData(d, ValueStart(m, i), v);
  }

  /** The four blocks a section is made of. */
  lemma {:induction false} SectionBlocks(m: Model, i: Ifd, items: seq<Item>)
    requires Present(m.contents, m.thumb, i) && items == Sorted(DirItems(m, i))
    ensures Section(m, i) == EncShort(|items|, m.order) + Records(items, |items|, m.order)
                             + EncLong(Next(m, i), m.order) + EntryValues(m, i, ValueStart(m, i))
  {
    hide Next, Present, Sorted, DirItems, ValueStart, EntryValues, EncShort, EncLong, Records;
    SectionPresent(m, i);
  }

  lemma {:induction false} DirectorySpan(m: Model, i: Ifd, items: seq<Item>)
    requires items == Sorted(DirItems(m, i))
    ensures |items| == Count(m.contents, m.thumb, i) && Start(m, i) + 6 + 12 * |items| == ValueStart(m, i)
  {
    hide Start, DirItems, Sorted, Count;
  }

  lemma {:induction false} WithinData(d: bytes, p: nat, y: bytes)
    requires LiesAt(d, p, y)
    ensures p + |y| <= |d|
  {
  }

  // ---- Records and values ----

  /** What round-tripping demands of an entry and of what it is saved as. */
  ghost predicate EntrySavable(x: Input, i: Ifd, e: Entry, eff: Entry)
    requires ValidInput(x)
  {
    && 0 <= e.tag < U16 && !Special(e.tag)
    && 1 <= e.format <= 12 && eff.format == e.format && eff.tag == e.tag
    && 0 < eff.components <= MAX_COMPONENTS && |eff.data| == ValueBytes(eff.format, eff.components)
    && (!x.ignoreUnknown || TagTable.Named(x.table, e.tag, i))
  }

  lemma {:induction false} PayloadWhole(eff: Entry)
    requires eff.components <= MAX_COMPONENTS && |eff.data| == ValueBytes(eff.format, eff.components)
    ensures Payload(eff) == eff.data
  {
  }

  ghost predicate DirSavable(x: Input, m: Model, i: Ifd)
    requires ValidInput(x)
  {
    && DistinctTags(m.contents.Of(i))
    && var effs := Effs(m, m.contents.Of(i), |m.contents.Of(i)|, ValueStart(m, i));
       forall k :: 0 <= k < |effs| ==> EntrySavable(x, i, m.contents.Of(i)[k], effs[k])
  }

  lemma {:induction false} SlotOfEntry(x: Input, i: Ifd, e: Entry, eff: Entry, ptr: int)
    requires ValidInput(x) && EntrySavable(x, i, e, eff)
    ensures EntryOf(Item(SlotOf(e, eff), ptr)) == eff
  {
    PayloadWhole(eff);
  }

  lemma {:induction false} SlotPlaced(x: Input, i: Ifd, e: Entry, eff: Entry, ptr: nat, pos: nat)
    requires ValidInput(x) && EntrySavable(x, i, e, eff)
    requires LiesAt(x.d, pos, Record(Item(SlotOf(e, eff), ptr), x.order))
    requires |Payload(eff)| > 4 ==> LiesAt(x.d, ptr, Payload(eff))
    ensures EntryPlaced(x, i, Item(SlotOf(e, eff), ptr), pos)
  {
    hide Record, LiesAt, Payload, ValueBytes, Special, TagTable.Named, TagTable.ValidTable;
    PayloadWhole(eff);
  }

  /** The items of the entries: the first ones of a directory. */
  ghost function EntryItem(m: Model, i: Ifd, j: nat): Item
    requires j < |m.contents.Of(i)|
  {
    Item(EntrySlots(m, i, ValueStart(m, i))[j],
      ValueStart(m, i) + |Values(EntrySlots(m, i, ValueStart(m, i)), j, true)|)
  }

  lemma {:induction false} DirItemIs(m: Model, i: Ifd, j: nat)
    requires j < |DirItems(m, i)|
    ensures j < |m.contents.Of(i)| ==> DirItems(m, i)[j] == EntryItem(m, i, j)
    ensures j >= |m.contents.Of(i)| ==> DirItems(m, i)[j] == ExtraItems(m, i)[j - |m.contents.Of(i)|]
  {
    hide Values, ExtraItems, EntrySlots, ValueStart;
  }

  /** The value of an entry lies where its item says. */
  lemma {:induction false} EntryValueAt(m: Model, d: bytes, i: Ifd, j: nat)
    requires j < |m.contents.Of(i)|
    requires LiesAt(d, ValueStart(m, i), EntryValues(m, i, ValueStart(m, i)))
    ensures |EntryItem(m, i, j).slot.payload| > 4 ==> LiesAt(d, EntryItem(m, i, j).ptr, EntryItem(m, i, j).slot.payload)
  {
    hide LiesAt, Values, EntrySlots, ValueStart;
    var slots := EntrySlots(m, i, ValueStart(m, i));
    if |slots[j].payload| > 4 {
      ValuesAt(slots, |slots|, true, j);
      LiesWithin(d, ValueStart(m, i), Values(slots, |slots|, true), |Values(slots, j, true)|, slots[j].payload);
    }
  }

  /** Record `k` of a sorted directory, wherever it came from. */
  lemma {:induction false} RecordAt(m: Model, d: bytes, i: Ifd, items: seq<Item>, k: nat)
    requires Present(m.contents, m.thumb, i) && items == Sorted(DirItems(m, i)) && k < |items|
    requires LiesAt(d, Start(m, i), Section(m, i))
    ensures LiesAt(d, Start(m, i) + 2 + 12 * k, Record(items[k], m.order))
  {
    hide LiesAt, Section, Record, DirItems, Start, Present, EntryValues, ValueStart, Next, Sorted;
    DirectoryParts(m, d, i, items);
    RecordsAt(items, |items|, m.order, k);
    LiesWithin(d, Start(m, i) + 2, Records(items, |items|, m.order), 12 * k, Record(items[k], m.order));
  }

  /** A sorted item is one of the unsorted ones. */
  lemma {:induction false} Origin(xs: seq<Item>, k: nat) returns (j: nat)
    requires k < |xs|
    ensures j < |xs| && xs[j] == Sorted(xs)[k]
  {
    hide Sorted;
    SortedMembers(xs);
    assert Sorted(xs)[k] in multiset(Sorted(xs));
    assert Sorted(xs)[k] in xs;
    j :| 0 <= j < |xs| && xs[j] == Sorted(xs)[k];
  }

  /** An unsorted item is one of the sorted ones. */
  lemma {:induction false} Image(xs: seq<Item>, j: nat) returns (k: nat)
    requires j < |xs|
    ensures k < |xs| && xs[j] == Sorted(xs)[k]
  {
    hide Sorted;
    SortedMembers(xs);
    assert xs[j] in multiset(xs);
    assert xs[j] in Sorted(xs);
    k :| 0 <= k < |xs| && xs[j] == Sorted(xs)[k];
  }

  lemma {:induction false} ExtrasSpecial(m: Model, i: Ifd)
    ensures forall k :: 0 <= k < |ExtraItems(m, i)| ==> Special(ExtraItems(m, i)[k].slot.tag)
    ensures DistinctItems(ExtraItems(m, i))
  {
    hide Start, End, Present;
  }

  // ---- Whole directories ----

  /** A section of the model in the loader's input. */
  ghost predicate InPlace(x: Input, m: Model, i: Ifd)
  {
    x.order == m.order && Present(m.contents, m.thumb, i) && LiesAt(x.d, Start(m, i), Section(m, i))
  }

  lemma {:induction false} ExtraIsSpecial(m: Model, i: Ifd, j: nat)
    requires |m.contents.Of(i)| <= j < |DirItems(m, i)|
    ensures Special(DirItems(m, i)[j].slot.tag)
  {
    hide DirItems, ExtraItems, Special;
    DirItemIs(m, i, j);
    ExtrasSpecial(m, i);
  }

  lemma {:induction false} EntryItemTag(m: Model, i: Ifd, j: nat)
    requires j < |m.contents.Of(i)|
    ensures EntryItem(m, i, j).slot.tag == m.contents.Of(i)[j].tag
  {
    hide Effs, ValueStart, Values;
  }

  lemma {:induction false} SavableTag(x: Input, m: Model, i: Ifd, j: nat)
    requires ValidInput(x) && DirSavable(x, m, i) && j < |m.contents.Of(i)|
    ensures !Special(m.contents.Of(i)[j].tag)
  {
    hide Special, TagTable.ValidTable, TagTable.Named, ValueStart;
    var effs := Effs(m, m.contents.Of(i), |m.contents.Of(i)|, ValueStart(m, i));
    assert EntrySavable(x, i, m.contents.Of(i)[j], effs[j]);
  }

  /** All records of a directory have different tags. */
  lemma {:induction false} DirDistinct(x: Input, m: Model, i: Ifd)
    requires ValidInput(x) && DirSavable(x, m, i)
    ensures DistinctItems(DirItems(m, i))
  {
    hide DirItems, ExtraItems, EntryItem, Special, EntrySavable, ValidInput, Effs, ValueStart;
    var n := |m.contents.Of(i)|;
    ExtrasSpecial(m, i);
    forall a, b | 0 <= a < b < |DirItems(m, i)| ensures DirItems(m, i)[a].slot.tag != DirItems(m, i)[b].slot.tag {
      DirItemIs(m, i, a);
      DirItemIs(m, i, b);
      if a < n {
        EntryItemTag(m, i, a);
        SavableTag(x, m, i, a);
        if b < n {
          EntryItemTag(m, i, b);
        } else {
          ExtraIsSpecial(m, i, b);
        }
      }
    }
  }

  lemma {:induction false} EntryItemSlot(m: Model, i: Ifd, j: nat)
    requires j < |m.contents.Of(i)|
    ensures var effs := Effs(m, m.contents.Of(i), |m.contents.Of(i)|, ValueStart(m, i));
      EntryItem(m, i, j) == Item(SlotOf(m.contents.Of(i)[j], effs[j]), EntryItem(m, i, j).ptr)
        && EntryItem(m, i, j).ptr >= 0
  {
    hide Effs, ValueStart, Values, SlotOf;
  }

  /** An entry's record in the sorted directory, and its value. */
  lemma {:induction false} EntryInPlace(x: Input, m: Model, i: Ifd, items: seq<Item>, k: nat)
    requires ValidInput(x) && DirSavable(x, m, i) && InPlace(x, m, i)
    requires items == Sorted(DirItems(m, i)) && k < |items| && !Special(items[k].slot.tag)
    ensures EntryPlaced(x, i, items[k], Start(m, i) + 2 + 12 * k)
  {
    hide DirItems, ExtraItems, EntryItem, Special, EntrySavable, ValidInput, Sorted, LiesAt, Section, Start, Effs;
    hide EntryPlaced, ValueStart, EntryValues, Record, SlotOf, Present, Payload;
    RecordAt(m, x.d, i, items, k);
    var j := Origin(DirItems(m, i), k);
    if j >= |m.contents.Of(i)| {
      ExtraIsSpecial(m, i, j);
      assert false;
    } else {
      DirItemIs(m, i, j);
      EntryItemSlot(m, i, j);
      var effs := Effs(m, m.contents.Of(i), |m.contents.Of(i)|, ValueStart(m, i));
      var item := EntryItem(m, i, j);
      assert EntrySavable(x, i, m.contents.Of(i)[j], effs[j]);
      DirectoryParts(m, x.d, i, items);
      EntryValueAt(m, x.d, i, j);
      assert item.slot.payload == Payload(effs[j]) by { SlotPayload(m.contents.Of(i)[j], effs[j]); }
      SlotPlaced(x, i, m.contents.Of(i)[j], effs[j], item.ptr, Start(m, i) + 2 + 12 * k);
    }
  }

  lemma {:induction false} SlotPayload(e: Entry, eff: Entry)
    ensures SlotOf(e, eff).payload == Payload(eff)
  {
  }

  /** A saved directory is in place for the loader. */
  lemma {:induction false} DirInPlace(x: Input, m: Model, i: Ifd, items: seq<Item>)
    requires ValidInput(x) && DirSavable(x, m, i) && InPlace(x, m, i) && items == Sorted(DirItems(m, i))
    ensures DirPlaced(x, i, Start(m, i), items)
  {
    hide DirItems, Special, EntrySavable, Sorted, LiesAt, Section, Start, Effs, EntryPlaced, ValueStart, EntryValues;
    hide Present, StrictlySorted, DirSavable, TagTable.ValidTable;
    DirDistinct(x, m, i);
    SortedStrictly(DirItems(m, i));
    DirectoryParts(m, x.d, i, items);
    forall k | 0 <= k < |items| && !Special(items[k].slot.tag)
      ensures EntryPlaced(x, i, items[k], Start(m, i) + 2 + 12 * k) {
      EntryInPlace(x, m, i, items, k);
    }
  }

  lemma {:induction false} DirPositive(m: Model, i: Ifd)
    ensures PointersPositive(Sorted(DirItems(m, i)))
  {
    hide DirItems, Sorted, EntryItem, ExtraItems, Effs;
    var xs := DirItems(m, i);
    forall k | 0 <= k < |xs| && |Sorted(xs)[k].slot.payload| > 4 ensures Sorted(xs)[k].ptr >= 0 {
      var j := Origin(xs, k);
      DirItemIs(m, i, j);
      if j < |m.contents.Of(i)| {
        EntryItemSlot(m, i, j);
      } else {
        ExtrasInline(m, i);
      }
    }
  }

  lemma {:induction false} ExtrasInline(m: Model, i: Ifd)
    ensures forall k :: 0 <= k < |ExtraItems(m, i)| ==> |ExtraItems(m, i)[k].slot.payload| == 4
  {
    hide Start, End, Present;
  }

  // ---- The entries ----

  lemma {:induction false} KeptExtras(xs: seq<Item>, n: nat)
    requires n <= |xs| && forall k :: 0 <= k < |xs| ==> Special(xs[k].slot.tag)
    ensures Kept(xs, n) == []
  {
    hide Special;
    if n > 0 {
      KeptExtras(xs, n - 1);
    }
  }

  /** The entries among the first `n` unsorted records are the first `n` entries as saved. */
  lemma {:induction false} KeptEntries(x: Input, m: Model, i: Ifd, n: nat, effs: seq<Entry>)
    requires ValidInput(x) && DirSavable(x, m, i) && n <= |m.contents.Of(i)|
    requires effs == Effs(m, m.contents.Of(i), |m.contents.Of(i)|, ValueStart(m, i))
    ensures n <= |DirItems(m, i)| && Kept(DirItems(m, i), n) == effs[..n]
  {
    hide DirItems, Special, EntryItem, ExtraItems, EntrySavable, TagTable.ValidTable, Effs, ValueStart, EntryOf;
    if n > 0 {
      KeptEntries(x, m, i, n - 1, effs);
      DirItemIs(m, i, n - 1);
      EntryItemSlot(m, i, n - 1);
      EntryItemTag(m, i, n - 1);
      SavableTag(x, m, i, n - 1);
      assert EntrySavable(x, i, m.contents.Of(i)[n - 1], effs[n - 1]);
      SlotOfEntry(x, i, m.contents.Of(i)[n - 1], effs[n - 1], EntryItem(m, i, n - 1).ptr);
      assert effs[..n] == effs[..n - 1] + [effs[n - 1]];
    }
  }

  /** The entries of a directory as the loader meets them: those saved, in ascending tag order. */
  lemma {:induction false} KeptDir(x: Input, m: Model, i: Ifd, effs: seq<Entry>)
    requires ValidInput(x) && DirSavable(x, m, i)
    requires effs == Effs(m, m.contents.Of(i), |m.contents.Of(i)|, ValueStart(m, i))
    ensures var items := Sorted(DirItems(m, i)); Kept(items, |items|) == SortedEntries(effs)
  {
    hide DirItems, ExtraItems, Special, Sorted, SortedEntries, DirSavable, ValidInput, Effs, ValueStart, Kept;
    var n := |m.contents.Of(i)|;
    var xs := DirItems(m, i);
    KeptEntries(x, m, i, n, effs);
    ExtrasSpecial(m, i);
    KeptExtras(xs[n..], |xs| - n) by {
      forall k | 0 <= k < |xs[n..]| ensures Special(xs[n..][k].slot.tag) {
        ExtraIsSpecial(m, i, n + k);
      }
    }
    KeptConcat(xs[..n], xs[n..], |xs| - n);
    KeptPrefix(xs[..n], xs[n..], n);
    assert xs[..n] + xs[n..] == xs;
    assert effs[..n] == effs && effs + [] == effs;
    KeptSorted(xs);
  }
}
