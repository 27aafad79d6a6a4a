/** Loading undoes saving, wherever in a file the note is put. */
module MakerNoteRoundTrip {
  import opened Bytes
  import opened Tiff
  import opened MakerNote

  // ---- The directory, for any shape ----

  /** Five blocks lying one after the other at `p`. */
  lemma {:induction false} FiveBlocks(b: bytes, p: nat, h: bytes, c: bytes, f: bytes, z: bytes, v: bytes)
    requires LiesAt(b, p, h + c + f + z + v)
    ensures LiesAt(b, p, h) && LiesAt(b, p + |h|, c) && LiesAt(b, p + |h| + |c|, f)
    ensures LiesAt(b, p + |h| + |c| + |f| + |z|, v)
  {
    LiesConcat(b, p, h + c + f + z, v);
    FourBlocks(b, p, h, c, f, z);
  }

  /** Positions in the file of the parts of a note lying at `p`. */
  lemma {:induction false} BlockParts(sh: Shape, order: ByteOrder, items: seq<Item>, vals: bytes, b: bytes, p: nat)
    requires LiesAt(b, p, Blocks(sh, order, items, vals))
    ensures LiesAt(b, p, sh.header)
    ensures LiesAt(b, p + |sh.header|, EncShort(|items|, order))
    ensures LiesAt(b, p + |sh.header| + 2, Records(items, |items|, order))
    ensures LiesAt(b, p + ValueArea(sh, |items|), vals)
  {
    FiveBlocks(b, p, sh.header, EncShort(|items|, order), Records(items, |items|, order), Zeros(sh.footer), vals);
  }

  /** An entry as a load produces it, small enough for save to write its value. */
  ghost predicate EntryOk(f: Family, e: NoteEntry, base: int, order: ByteOrder)
  {
    && base <= e.tag < base + U16
    && 0 <= e.format < U16
    && e.components < U32
    && |e.data| == ValueSize(e) <= 65536
    && e.order == order
    && (f.CanonF? ==> e.data != [])
  }

  /** Record `k` of a directory lying at `p` lies in place. */
  lemma {:induction false} RecordPlaced(items: seq<Item>, vals: bytes, sh: Shape, order: ByteOrder, b: bytes, p: nat,
                                        k: nat)
    requires LiesAt(b, p, Blocks(sh, order, items, vals)) && k < |items|
    ensures LiesAt(b, p + |sh.header| + 2 + 12 * k, Record(items[k], order))
  {
    BlockParts(sh, order, items, vals, b, p);
    RecordsAt(items, |items|, order, k);
    LiesWithin(b, p + |sh.header| + 2, Records(items, |items|, order), 12 * k, Record(items[k], order));
  }

  /** The value of slot `k` lies in place. */
  lemma {:induction false} ValuePlaced(slots: seq<Slot>, items: seq<Item>, sh: Shape, order: ByteOrder, b: bytes,
                                       p: nat, k: nat)
    requires |items| == |slots| && LiesAt(b, p, Blocks(sh, order, items, Values(slots, |slots|, sh.padded)))
    requires k < |slots| && |slots[k].payload| > 4
    ensures LiesAt(b, p + ValueArea(sh, |slots|) + |Values(slots, k, sh.padded)|, slots[k].payload)
  {
    hide *;
    BlockParts(sh, order, items, Values(slots, |slots|, sh.padded), b, p);
    ValuesAt(slots, |slots|, sh.padded, k);
    LiesWithin(b, p + ValueArea(sh, |slots|), Values(slots, |slots|, sh.padded), |Values(slots, k, sh.padded)|,
      slots[k].payload);
  }

  lemma {:induction false} PayloadWhole(e: NoteEntry)
    requires |e.data| == ValueSize(e) <= MAX_VALUE
    ensures Payload(e) == e.data
  {
  }

  lemma {:induction false} ParseValueKeeps(f: Family, b: bytes, e: NoteEntry, bare: NoteEntry, at: nat)
    requires LiesAt(b, at, e.data) && bare == e.(data := []) && (f.CanonF? ==> e.data != [])
    ensures ParseValue(f, b, bare, |e.data|, at) == Keep(e)
  {
    LiesAtSlice(b, at, e.data);
  }

  /** The fields of an entry's record give back the entry, if its value lies where its offset leads. */
  lemma {:induction false} LiesBelow(b: bytes, at: nat, x: bytes)
    requires LiesAt(b, at, x) && |x| > 0 && |b| < U32
    ensures at < U32
  {
  }

  lemma {:induction false} ParseFieldsKeeps(f: Family, e: NoteEntry, base: int, i: Item, order: ByteOrder, b: bytes,
                                            o: nat, x: Fields, pointerBase: nat)
    requires EntryOk(f, e, base, order) && i.slot == Slot(e.tag - base, e.format, e.components, e.data)
    requires FieldsOf(x, i, b, o) && |b| < U32
    requires |e.data| > 4 ==> 0 <= i.ptr < U32 && LiesAt(b, i.ptr + pointerBase, e.data)
    ensures ParseFields(f, order, b, o, x, base, pointerBase) == Keep(e)
  {
    hide ParseValue, LiesAt;
    if |e.data| > 4 {
      LiesBelow(b, i.ptr + pointerBase, e.data);
    }
    ParseValueKeeps(f, b, e, e.(data := []), if |e.data| > 4 then i.ptr + pointerBase else o + 8);
  }

  lemma {:induction false} ParseRecord(f: Family, e: NoteEntry, base: int, i: Item, order: ByteOrder, b: bytes, o: nat,
                                       pointerBase: nat)
    requires EntryOk(f, e, base, order) && i.slot == Slot(e.tag - base, e.format, e.components, e.data)
    requires LiesAt(b, o, Record(i, order)) && |b| < U32
    requires |e.data| > 4 ==> 0 <= i.ptr < U32 && LiesAt(b, i.ptr + pointerBase, e.data)
    ensures ParseOne(f, order, b, o, base, pointerBase) == Keep(e)
  {
    RecordFields(i, order, b, o);
    ParseFieldsKeeps(f, e, base, i, order, b, o, ReadFields(b, o, order), pointerBase);
  }

  /** The pointer a saved directory holds for slot `k`. */
  function PtrAt(slots: seq<Slot>, sh: Shape, k: nat): int
    requires k <= |slots|
  {
    sh.origin + ValueArea(sh, |slots|) + |Values(slots, k, sh.padded)|
  }

  /** In a saved directory the record of slot `k` lies in place, and so does its value. */
  lemma {:induction false} SlotInFile(slots: seq<Slot>, sh: Shape, order: ByteOrder, b: bytes, p: nat, k: nat)
    requires LiesAt(b, p, BlocksOf(slots, sh, order)) && k < |slots|
    ensures LiesAt(b, p + |sh.header| + 2 + 12 * k, Record(Item(slots[k], PtrAt(slots, sh, k)), order))
    ensures |slots[k].payload| > 4 ==> LiesAt(b, p + PtrAt(slots, sh, k) - sh.origin, slots[k].payload)
  {
    hide Blocks, Values, Record, LiesAt;
    var items := Items(slots, sh.origin + ValueArea(sh, |slots|), sh.padded);
    RecordPlaced(items, Values(slots, |slots|, sh.padded), sh, order, b, p, k);
    if |slots[k].payload| > 4 {
      ValuePlaced(slots, items, sh, order, b, p, k);
    }
  }

  /** The load loop reads back an entry whose record and value are in place. */
  lemma {:induction false} EntryParsed(f: Family, e: NoteEntry, base: int, ptr: int, order: ByteOrder, b: bytes,
                                       o: nat, pointerBase: nat)
    requires EntryOk(f, e, base, order) && |b| < U32 && ptr >= 0
    requires LiesAt(b, o, Record(Item(SlotOf(e, base), ptr), order))
    requires |Payload(e)| > 4 ==> LiesAt(b, ptr + pointerBase, Payload(e))
    ensures ParseOne(f, order, b, o, base, pointerBase) == Keep(e)
  {
    PayloadWhole(e);
    ParseRecord(f, e, base, Item(SlotOf(e, base), ptr), order, b, o, pointerBase);
  }

  /** Entries that all parse are all stored, within Canon's failsafe. */
  lemma {:induction false} CollectAll(f: Family, es: seq<NoteEntry>, ps: seq<Parsed>, total: nat)
    requires |ps| == |es| && forall k :: 0 <= k < |es| ==> ps[k] == Keep(es[k])
    requires f.CanonF? ==> total + SumCounts(es) <= FAILSAFE_SIZE_MAX
    requires !f.CanonF? ==> total == 0
    ensures Collect(f, ps, total) == es
  {
    if es != [] {
      CollectAll(f, es[1..], ps[1..], if f.CanonF? then total + CountValues(es[0]) else 0);
      assert es == [es[0]] + es[1..];
    }
  }

  /** The entry count is read back, and does not look byte-swapped. */
  lemma {:induction false} CountField(sh: Shape, order: ByteOrder, items: seq<Item>, vals: bytes, b: bytes, p: nat)
    requires LiesAt(b, p, Blocks(sh, order, items, vals)) && |items| <= 300
    ensures var at := p + |sh.header|;
            && at + 2 <= |b|
            && GetShort(b, at, order) == |items|
            && FixedOrder(b, at, order) == order
  {
    hide Blocks, Records, GetShort, ValueArea;
    BlockParts(sh, order, items, vals, b, p);
    ShortAt(b, p + |sh.header|, |items|, order);
  }

  // ---- The headers ----

  /** What can be saved and read back. */
  ghost predicate Savable(n: Note)
  {
    && !n.version.Unrecognized?
    && FamilyOf(n.version) == n.family
    && |n.entries| <= (match n.family case CanonF => 250 case FujiF => 150 case OlympusF => 300 case PentaxF => 200)
    && (forall k :: 0 <= k < |n.entries| ==> EntryOk(n.family, n.entries[k], TagBase(n.version), n.order))
    && (n.family.CanonF? ==> SumCounts(n.entries) <= 1_000_000)
    && (n.family.FujiF? ==> n.order.Intel?)
  }

  /** Variants whose header does not tell the byte order: the caller must supply it. */
  predicate OrderFromCaller(v: Version)
  {
    v.CanonV? || v.NikonV1? || v.PentaxV1? || v.PentaxV2? || v.CasioV2?
  }

  /** The note's bytes lie in `b` where its offset says. */
  ghost predicate PlacedIn(n: Note, b: bytes)
    requires !n.version.Unrecognized?
  {
    && |b| < U32
    && LiesAt(b, 6 + n.offset, Image(n))
    && (n.version.PentaxV1? ==> 6 + n.offset + 8 <= |b|)
  }

  /** `n0` is a handler set up to load `n`: same kind, same offset, and the byte order where needed. */
  predicate SetUpFor(n0: Note, n: Note)
  {
    && n0.family == n.family && n0.offset == n.offset
    && (OrderFromCaller(n.version) ==> n0.order == n.order)
    && (n.family.CanonF? || n.family.FujiF? ==> n0.version == n.version)
  }

  /** The file position a stored pointer is relative to. */
  function PointerBase(v: Version, offset: nat): nat
  {
    match v
    case FujiV | OlympusV2 => 6 + offset
    case NikonV2 | NikonV0 => 16 + offset
    case _ => 6
  }

  lemma {:induction false} OriginCancels(n: Note)
    ensures PointerBase(n.version, n.offset) + ShapeOf(n.version, n.order, n.offset).origin == 6 + n.offset
  {
  }

  /** The header and the entry count of a saved directory, found in the file. */
  lemma {:induction false} HeaderInFile(slots: seq<Slot>, sh: Shape, order: ByteOrder, b: bytes, p: nat)
    requires LiesAt(b, p, BlocksOf(slots, sh, order)) && |slots| <= 300
    ensures LiesAt(b, p, sh.header) && p + |sh.header| + 2 <= |b|
    ensures GetShort(b, p + |sh.header|, order) == |slots| && FixedOrder(b, p + |sh.header|, order) == order
  {
    var items := Items(slots, sh.origin + ValueArea(sh, |slots|), sh.padded);
    BlockParts(sh, order, items, Values(slots, |slots|, sh.padded), b, p);
    CountField(sh, order, items, Values(slots, |slots|, sh.padded), b, p);
  }

  lemma {:induction false} IdentifyLiterals(b: bytes, at: nat)
    requires at + 8 <= |b|
    ensures LiesAt(b, at, OLYMPUS) ==> Identify(b, at) == OlympusV2
    ensures LiesAt(b, at, OLYMP) ==> Identify(b, at) == OlympusV1
    ensures LiesAt(b, at, SANYO) ==> Identify(b, at) == SanyoV1
    ensures LiesAt(b, at, EPSON) ==> Identify(b, at) == EpsonV1
    ensures LiesAt(b, at, NIKON) ==>
      Identify(b, at) == if b[at + 6] == 1 then NikonV1 else if b[at + 6] == 2 then NikonV2 else Unrecognized
  {
    assert LiesAt(b, at, OLYMPUS) ==> b[at + 0] == OLYMPUS[0];
    assert LiesAt(b, at, OLYMPUS) ==> b[at + 5] == OLYMPUS[5];
    assert LiesAt(b, at, OLYMP) ==> b[at + 0] == OLYMP[0];
    assert LiesAt(b, at, OLYMP) ==> b[at + 5] == OLYMP[5];
    assert LiesAt(b, at, SANYO) ==> b[at + 0] == SANYO[0];
    assert LiesAt(b, at, EPSON) ==> b[at + 0] == EPSON[0];
    assert LiesAt(b, at, NIKON) ==> b[at + 0] == NIKON[0];
  }

  /** Olympus, Sanyo and Epson version 1. */
  lemma {:induction false} LocateOlympusV1(n: Note, n0: Note, b: bytes, name: bytes)
    requires n0.family.OlympusF? && n0.offset == n.offset && 6 + n.offset + 10 <= |b|
    requires (n.version.OlympusV1? && name == OLYMP) || (n.version.SanyoV1? && name == SANYO)
      || (n.version.EpsonV1? && name == EPSON)
    requires LiesAt(b, 6 + n.offset, name + EncShort(1, n.order))
    requires FixedOrder(b, 6 + n.offset + 8, n.order) == n.order
    ensures Locate(n0, b) == Go(n0.(version := n.version, order := n.order), 6 + n.offset + 8, 0, 6)
  {
    var o2 := 6 + n.offset;
    LiesConcat(b, o2, name, EncShort(1, n.order));
    IdentifyLiterals(b, o2);
    ShortAt(b, o2 + 6, 1, n.order);
  }

  lemma {:induction false} OrderMarks(b: bytes, at: nat, order: ByteOrder)
    requires LiesAt(b, at, OrderMark(order))
    ensures LiesAt(b, at, OrderMark(Intel)) <==> order.Intel?
    ensures LiesAt(b, at, OrderMark(Motorola)) <==> order.Motorola?
  {
    assert b[at + 0] == OrderMark(order)[0];
    assert OrderMark(Intel)[0] == 0x49 && OrderMark(Motorola)[0] == 0x4d;
  }

  lemma {:induction false} LocateOlympusV2(n: Note, n0: Note, b: bytes)
    requires n0.family.OlympusF? && n0.offset == n.offset && n.version.OlympusV2?
    requires LiesAt(b, 6 + n.offset, OLYMPUS + OrderMark(n.order) + EncShort(3, n.order))
    requires 6 + n.offset + 14 <= |b|
    ensures Locate(n0, b) == Go(n0.(version := n.version, order := n.order), 6 + n.offset + 12, 0, 6 + n.offset)
  {
    var o2 := 6 + n.offset;
    LiesConcat(b, o2, OLYMPUS + OrderMark(n.order), EncShort(3, n.order));
    LiesConcat(b, o2, OLYMPUS, OrderMark(n.order));
    IdentifyLiterals(b, o2);
    OrderMarks(b, o2 + 8, n.order);
  }

  lemma {:induction false} LocateNikonV1(n: Note, n0: Note, b: bytes)
    requires n0.family.OlympusF? && n0.offset == n.offset && n.version.NikonV1? && n0.order == n.order
    requires LiesAt(b, 6 + n.offset, NIKON + [1, 0])
    requires 6 + n.offset + 10 <= |b| && FixedOrder(b, 6 + n.offset + 8, n.order) == n.order
    ensures Locate(n0, b) == Go(n0.(version := n.version), 6 + n.offset + 8, NIKON1_TAG_BASE, 6)
  {
    var o2 := 6 + n.offset;
    LiesConcat(b, o2, NIKON, [1, 0]);
    assert b[o2 + 6 + 0] == [1, 0][0];
    IdentifyLiterals(b, o2);
  }

  /** The Nikon header with version byte `v`, block by block. */
  lemma {:induction false} NikonBlocks(b: bytes, o2: nat, v: byte, order: ByteOrder)
    requires LiesAt(b, o2, NIKON + [v, 0, 0, 0] + OrderMark(order) + EncShort(0x2a, order) + EncLong(8, order))
    ensures LiesAt(b, o2, NIKON) && o2 + 18 <= |b| && b[o2 + 6] == v
    ensures LiesAt(b, o2 + 10, OrderMark(order)) && GetLong(b, o2 + 14, order) == 8
  {
    LiesConcat(b, o2, NIKON + [v, 0, 0, 0] + OrderMark(order) + EncShort(0x2a, order), EncLong(8, order));
    FourBlocks(b, o2, NIKON, [v, 0, 0, 0], OrderMark(order), EncShort(0x2a, order));
    assert b[o2 + 6 + 0] == [v, 0, 0, 0][0];
    LongAt(b, o2 + 14, 8, order);
  }

  lemma {:induction false} LocateNikonV2(n: Note, n0: Note, b: bytes)
    requires n0.family.OlympusF? && n0.offset == n.offset && n.version.NikonV2?
    requires LiesAt(b, 6 + n.offset,
      NIKON + [2, 0, 0, 0] + OrderMark(n.order) + EncShort(0x2a, n.order) + EncLong(8, n.order))
    requires 6 + n.offset + 22 <= |b|
    ensures Locate(n0, b) == Go(n0.(version := n.version, order := n.order), 6 + n.offset + 18, 0, 16 + n.offset)
  {
    var o2 := 6 + n.offset;
    NikonBlocks(b, o2, 2, n.order);
    IdentifyLiterals(b, o2);
    OrderMarks(b, o2 + 10, n.order);
  }

  lemma {:induction false} LocateFuji(n: Note, n0: Note, b: bytes)
    requires n0.family.FujiF? && n0.offset == n.offset && n.order.Intel? && n0.version == n.version
    requires LiesAt(b, 6 + n.offset, FUJIFILM + EncLong(12, n.order))
    requires 6 + n.offset + 14 <= |b|
    ensures Locate(n0, b) == Go(n0.(order := n.order), 6 + n.offset + 12, 0, 6 + n.offset)
  {
    LiesConcat(b, 6 + n.offset, FUJIFILM, EncLong(12, n.order));
    LongAt(b, 6 + n.offset + 8, 12, n.order);
  }

  lemma {:induction false} Differs(b: bytes, at: nat, x: bytes, i: nat)
    requires i < |x| && at + i < |b| && b[at + i] != x[i]
    ensures !LiesAt(b, at, x)
  {
  }

  lemma {:induction false} LocatePentaxV3(n: Note, n0: Note, b: bytes)
    requires n0.family.PentaxF? && n0.offset == n.offset && n.version.PentaxV3?
    requires LiesAt(b, 6 + n.offset, AOC + OrderMark(n.order)) && 6 + n.offset + 8 <= |b|
    ensures Locate(n0, b) == Go(n0.(version := n.version, order := n.order), 6 + n.offset + 6, PENTAX2_TAG_BASE, 6)
  {
    LiesConcat(b, 6 + n.offset, AOC, OrderMark(n.order));
    OrderMarks(b, 6 + n.offset + 4, n.order);
  }

  /** The zero short after the name is not a byte-order mark. */
  lemma {:induction false} NoOrderMark(b: bytes, at: nat, order: ByteOrder)
    requires LiesAt(b, at, EncShort(0, order))
    ensures !LiesAt(b, at, OrderMark(Intel)) && !LiesAt(b, at, OrderMark(Motorola))
  {
    ShortAt(b, at, 0, order);
    Differs(b, at, OrderMark(Intel), 0);
    Differs(b, at, OrderMark(Motorola), 0);
  }

  lemma {:induction false} LocatePentaxV2(n: Note, n0: Note, b: bytes, name: bytes)
    requires n0.family.PentaxF? && n0.offset == n.offset && n0.order == n.order
    requires (n.version.CasioV2? && name == QVC) || (n.version.PentaxV2? && name == AOC)
    requires LiesAt(b, 6 + n.offset, name + EncShort(0, n.order)) && 6 + n.offset + 8 <= |b|
    ensures Locate(n0, b) == Go(n0.(version := n.version), 6 + n.offset + 6, PENTAX2_TAG_BASE, 6)
  {
    var at := 6 + n.offset;
    LiesConcat(b, at, name, EncShort(0, n.order));
    NoOrderMark(b, at + 4, n.order);
    if n.version.CasioV2? {
      assert b[at + 0] == QVC[0];
      Differs(b, at, AOC, 0);
    }
  }

  /** A version 1 note starts with its entry count, too small to look like a name. */
  lemma {:induction false} LocatePentaxV1(n: Note, n0: Note, b: bytes)
    requires n0.family.PentaxF? && n0.offset == n.offset && n.version.PentaxV1? && n0.order == n.order
    requires 6 + n.offset + 8 <= |b| && GetShort(b, 6 + n.offset, n.order) <= 200
    ensures Locate(n0, b) == Go(n0.(version := n.version), 6 + n.offset, 0, 6)
  {
    var at := 6 + n.offset;
    var i := if n.order.Motorola? then 0 else 1;
    Differs(b, at, AOC, i);
    Differs(b, at, QVC, i);
  }

  // ---- The theorems ----

  ghost predicate Located(n: Note, n0: Note, b: bytes)
  {
    Locate(n0, b) == Go(n, 6 + n.offset + |Header(n.version, n.order)|, TagBase(n.version),
      PointerBase(n.version, n.offset))
  }

  /** The bare note: everything but the entries, which a load replaces. */
  function Bare(n: Note, n0: Note): Note { n.(entries := n0.entries) }

  lemma {:induction false} SavedName(n: Note, b: bytes)
    requires !n.version.Unrecognized? && PlacedIn(n, b)
    ensures LiesAt(b, 6 + n.offset, Header(n.version, n.order))
  {
    hide Blocks, LiesAt, Header, Values, Items;
    var slots, sh := Slots(n.entries, TagBase(n.version)), ShapeOf(n.version, n.order, n.offset);
    var items := Items(slots, sh.origin + ValueArea(sh, |slots|), sh.padded);
    BlockParts(sh, n.order, items, Values(slots, |slots|, sh.padded), b, 6 + n.offset);
  }

  /** The entry count of a saved note, found in the file. */
  lemma {:induction false} SavedCount(n: Note, b: bytes, at: nat)
    requires !n.version.Unrecognized? && PlacedIn(n, b) && |n.entries| <= 300
    requires at == 6 + n.offset + |Header(n.version, n.order)|
    ensures at + 2 <= |b| && GetShort(b, at, n.order) == |n.entries| && FixedOrder(b, at, n.order) == n.order
  {
    hide BlocksOf, LiesAt, Header, FixedOrder, GetShort;
    HeaderInFile(Slots(n.entries, TagBase(n.version)), ShapeOf(n.version, n.order, n.offset), n.order, b, 6 + n.offset);
  }

  lemma {:induction false} SavedHeader(n: Note, b: bytes)
    requires Savable(n) && PlacedIn(n, b)
    ensures LiesAt(b, 6 + n.offset, Header(n.version, n.order))
    ensures 6 + n.offset + |Header(n.version, n.order)| + 2 <= |b|
    ensures GetShort(b, 6 + n.offset + |Header(n.version, n.order)|, n.order) == |n.entries|
    ensures FixedOrder(b, 6 + n.offset + |Header(n.version, n.order)|, n.order) == n.order
  {
    hide Image, LiesAt, Header, FixedOrder, GetShort, PlacedIn, EntryOk, SumCounts;
    SavedName(n, b);
    SavedCount(n, b, 6 + n.offset + |Header(n.version, n.order)|);
  }

  lemma {:induction false} LocateOlympusV1Saved(n: Note, n0: Note, b: bytes)
    requires Savable(n) && PlacedIn(n, b) && SetUpFor(n0, n)
    requires n.version.OlympusV1? || n.version.SanyoV1? || n.version.EpsonV1?
    ensures Located(Bare(n, n0), n0, b)
  {
    hide PlacedIn, FixedOrder, GetShort, Locate;
    SavedHeader(n, b);
    match n.version
    case OlympusV1 => LocateOlympusV1(n, n0, b, OLYMP);
    case SanyoV1 => LocateOlympusV1(n, n0, b, SANYO);
    case EpsonV1 => LocateOlympusV1(n, n0, b, EPSON);
  }

  lemma {:induction false} LocateNikonSaved(n: Note, n0: Note, b: bytes)
    requires Savable(n) && PlacedIn(n, b) && SetUpFor(n0, n)
    requires n.version.OlympusV2? || n.version.NikonV1? || n.version.NikonV2?
    ensures Located(Bare(n, n0), n0, b)
  {
    hide FixedOrder, GetShort, Locate, LiesAt, PlacedIn, EntryOk, SumCounts, EncShort, EncLong, OrderMark;
    SavedHeader(n, b);
    match n.version
    case OlympusV2 => LocateOlympusV2(n, n0, b);
    case NikonV1 => LocateNikonV1(n, n0, b);
    case NikonV2 =>
      RoomForFooter(n, b);
      LocateNikonV2(n, n0, b);
  }

  /** Behind the count of a NikonV2 note there are at least the four bytes of its footer. */
  lemma {:induction false} RoomForFooter(n: Note, b: bytes)
    requires n.version.NikonV2? && PlacedIn(n, b)
    ensures 6 + n.offset + |Header(n.version, n.order)| + 6 <= |b|
  {
    hide Header, Records, Values, EncShort, Items, Slots;
  }

  lemma {:induction false} LocatePentaxSaved(n: Note, n0: Note, b: bytes)
    requires Savable(n) && PlacedIn(n, b) && SetUpFor(n0, n) && n.family.PentaxF?
    ensures Located(Bare(n, n0), n0, b)
  {
    hide FixedOrder, Locate, Image;
    SavedHeader(n, b);
    match n.version
    case PentaxV1 => LocatePentaxV1(n, n0, b);
    case PentaxV2 => LocatePentaxV2(n, n0, b, AOC);
    case PentaxV3 => LocatePentaxV3(n, n0, b);
    case CasioV2 => LocatePentaxV2(n, n0, b, QVC);
  }

  lemma {:induction false} LocateCanonFujiSaved(n: Note, n0: Note, b: bytes)
    requires Savable(n) && PlacedIn(n, b) && SetUpFor(n0, n) && (n.family.CanonF? || n.family.FujiF?)
    ensures Located(Bare(n, n0), n0, b)
  {
    hide FixedOrder, Image;
    SavedHeader(n, b);
    if n.family.FujiF? {
      LocateFuji(n, n0, b);
    }
  }

  lemma {:induction false} LocateSaved(n: Note, n0: Note, b: bytes)
    requires Savable(n) && PlacedIn(n, b) && SetUpFor(n0, n) && !n.version.NikonV0?
    ensures Located(Bare(n, n0), n0, b)
  {
    match n.version
    case OlympusV1 | SanyoV1 | EpsonV1 => LocateOlympusV1Saved(n, n0, b);
    case OlympusV2 | NikonV1 | NikonV2 => LocateNikonSaved(n, n0, b);
    case PentaxV1 | PentaxV2 | PentaxV3 | CasioV2 => LocatePentaxSaved(n, n0, b);
    case CanonV | FujiV => LocateCanonFujiSaved(n, n0, b);
  }

  lemma {:induction false} ParsedAt(f: Family, es: seq<NoteEntry>, sh: Shape, order: ByteOrder, b: bytes, p: nat,
                                    pointerBase: nat, k: nat)
    requires LiesAt(b, p, BlocksOf(Slots(es, sh.base), sh, order)) && |b| < U32
    requires pointerBase + sh.origin == p && sh.origin + ValueArea(sh, |es|) >= 0
    requires k < |es| && EntryOk(f, es[k], sh.base, order)
    ensures ParseOne(f, order, b, p + |sh.header| + 2 + 12 * k, sh.base, pointerBase) == Keep(es[k])
  {
    hide BlocksOf, Record, ParseOne, LiesAt, Payload;
    var slots := Slots(es, sh.base);
    SlotInFile(slots, sh, order, b, p, k);
    EntryParsed(f, es[k], sh.base, PtrAt(slots, sh, k), order, b, p + |sh.header| + 2 + 12 * k, pointerBase);
  }

  /** The entries of a note of any shape, read back from where it lies. */
  lemma {:induction false} EntriesReadBack(f: Family, es: seq<NoteEntry>, sh: Shape, order: ByteOrder, b: bytes,
                                           p: nat, pointerBase: nat, ps: seq<Parsed>)
    requires LiesAt(b, p, BlocksOf(Slots(es, sh.base), sh, order)) && |b| < U32
    requires pointerBase + sh.origin == p && sh.origin + ValueArea(sh, |es|) >= 0
    requires forall k :: 0 <= k < |es| ==> EntryOk(f, es[k], sh.base, order)
    requires ps == ParseAll(f, order, b, p + |sh.header| + 2, |es|, sh.base, pointerBase)
    ensures |ps| == |es| && forall k :: 0 <= k < |es| ==> ps[k] == Keep(es[k])
  {
    hide BlocksOf, ParseOne, EntryOk, LiesAt;
    forall k | 0 <= k < |es| ensures ps[k] == Keep(es[k]) {
      ParsedAt(f, es, sh, order, b, p, pointerBase, k);
    }
  }

  lemma {:induction false} LoadFrom(n: Note, n0: Note, b: bytes, at: nat, base: int, pointerBase: nat, ps: seq<Parsed>)
    requires Locate(n0, b) == Go(Bare(n, n0), at, base, pointerBase) && n0.family == n.family
    requires GetShort(b, at, n.order) == |n.entries| <= Limit(n.family)
    requires ps == ParseAll(n.family, n.order, b, at + 2, |n.entries|, base, pointerBase)
    requires forall k :: 0 <= k < |n.entries| ==> ps[k] == Keep(n.entries[k])
    requires n.family.CanonF? ==> SumCounts(n.entries) <= FAILSAFE_SIZE_MAX
    ensures Load(n0, b) == n
  {
    CollectAll(n.family, n.entries, ps, 0);
  }

  lemma {:induction false} SavedEntries(n: Note, b: bytes, ps: seq<Parsed>)
    requires Savable(n) && PlacedIn(n, b)
    requires ps == ParseAll(n.family, n.order, b, 6 + n.offset + |Header(n.version, n.order)| + 2, |n.entries|,
                            TagBase(n.version), PointerBase(n.version, n.offset))
    ensures |ps| == |n.entries| && forall k :: 0 <= k < |n.entries| ==> ps[k] == Keep(n.entries[k])
  {
    hide BlocksOf, LiesAt, ParseAll, EntryOk;
    OriginCancels(n);
    EntriesReadBack(n.family, n.entries, ShapeOf(n.version, n.order, n.offset), n.order, b, 6 + n.offset,
                    PointerBase(n.version, n.offset), ps);
  }

  /**
   Maker-note round trip under relocation: wherever the note was told it would lie, and whatever
   surrounds it there, loading the file restores version, byte order and every entry.
   */
  lemma {:induction false} RoundTrip(n: Note, n0: Note, b: bytes)
    requires Savable(n) && PlacedIn(n, b) && SetUpFor(n0, n) && !n.version.NikonV0?
    ensures Load(n0, b) == n
  {
    var at := 6 + n.offset + |Header(n.version, n.order)|;
    var ps := ParseAll(n.family, n.order, b, at + 2, |n.entries|, TagBase(n.version), PointerBase(n.version, n.offset));
    LocateSaved(n, n0, b);
    SavedCount(n, b, at);
    SavedEntries(n, b, ps);
    LoadFrom(n, n0, b, at, TagBase(n.version), PointerBase(n.version, n.offset), ps);
  }

  lemma {:induction false} NikonV0Unrecognized(b: bytes, at: nat, order: ByteOrder)
    requires LiesAt(b, at, NIKON + [7, 0, 0, 0] + OrderMark(order) + EncShort(0x2a, order) + EncLong(8, order))
    ensures at + 18 <= |b| && Identify(b, at) == Unrecognized
  {
    NikonBlocks(b, at, 7, order);
    IdentifyLiterals(b, at);
  }

  lemma {:induction false} UnrecognizedLoad(n0: Note, b: bytes)
    requires n0.family.OlympusF? && 6 + n0.offset + 18 <= |b| && Identify(b, 6 + n0.offset) == Unrecognized
    ensures Load(n0, b) == n0.(version := Unrecognized)
  {
  }

  lemma {:induction false} NikonV0Saved(n: Note, b: bytes)
    requires n.version.NikonV0? && PlacedIn(n, b)
    ensures 6 + n.offset + 18 <= |b| && Identify(b, 6 + n.offset) == Unrecognized
  {
    hide Image, LiesAt, Identify, PlacedIn, EncShort, EncLong, OrderMark;
    SavedName(n, b);
    NikonV0Unrecognized(b, 6 + n.offset, n.order);
  }

  /**
   The one variant that cannot be read back: a NikonV0 note is saved under a version byte its
   loader does not recognise, so a load changes nothing but the version, whatever was saved.
   */
  lemma {:induction false} NikonV0IsLost(n: Note, n0: Note, b: bytes)
    requires n.version.NikonV0? && PlacedIn(n, b)
    requires n0.family.OlympusF? && n0.offset == n.offset
    ensures Load(n0, b) == n0.(version := Unrecognized)
  {
    hide *;
    NikonV0Saved(n, b);
    UnrecognizedLoad(n0, b);
  }

  /** An empty NikonV0 note behind six other bytes. */
  lemma {:induction false} NikonV0Example(order: ByteOrder)
    ensures var n := Note(OlympusF, NikonV0, order, 0, []); var b := Zeros(6) + Image(n);
      PlacedIn(n, b) && Load(n.(version := Unrecognized), b) == n.(version := Unrecognized)
  {
    hide Image, Load, Identify;
    var n := Note(OlympusF, NikonV0, order, 0, []);
    ShortImage(n);
    LiesRight(Zeros(6), Image(n));
    NikonV0IsLost(n, n.(version := Unrecognized), Zeros(6) + Image(n));
  }

  lemma {:induction false} ShortImage(n: Note)
    requires n.version.NikonV0? && n.entries == []
    ensures |Image(n)| <= 100
  {
    hide EncShort, EncLong;
  }
}
