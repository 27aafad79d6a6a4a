/** Notes that cameras write and no save does: they load all the same. */
module MakerNoteForeign {
  import opened Bytes
  import opened Tiff
  import opened MakerNote
  import opened MakerNoteRoundTrip

  /**
   A bare directory: its count, records, `footer` zero bytes, and its values, with pointers counted from `pointerBase`.
   */
  ghost function Directory(es: seq<NoteEntry>, base: int, footer: nat, origin: int, padded: bool,
                           order: ByteOrder): bytes
  {
    BlocksOf(Slots(es, base), Shape([], footer, base, origin, padded), order)
  }

  /** A directory in a byte order and with a tag base, lying at `at`, that a loader of the family accepts. */
  ghost predicate Lies(f: Family, es: seq<NoteEntry>, base: int, footer: nat, padded: bool, order: ByteOrder, b: bytes,
                       at: nat, pointerBase: nat)
  {
    && |b| < U32 && |es| <= Limit(f) && at >= pointerBase
    && LiesAt(b, at, Directory(es, base, footer, at - pointerBase, padded, order))
    && (forall k :: 0 <= k < |es| ==> EntryOk(f, es[k], base, order))
    && (f.CanonF? ==> SumCounts(es) <= FAILSAFE_SIZE_MAX)
  }

  lemma {:induction false} CountThere(f: Family, es: seq<NoteEntry>, base: int, footer: nat, padded: bool,
                                      order: ByteOrder,
                                      b: bytes, at: nat, pointerBase: nat)
    requires Lies(f, es, base, footer, padded, order, b, at, pointerBase)
    ensures at + 2 <= |b| && GetShort(b, at, order) == |es| && FixedOrder(b, at, order) == order
  {
    hide BlocksOf, LiesAt, GetShort, FixedOrder, EntryOk, SumCounts;
    HeaderInFile(Slots(es, base), Shape([], footer, base, at - pointerBase, padded), order, b, at);
  }

  /** Once a loader has come to such a directory, it reads all of its entries. */
  lemma {:induction false} DirectoryLoads(n0: Note, n1: Note, es: seq<NoteEntry>, base: int, footer: nat, padded: bool,
                                          b: bytes, at: nat, pointerBase: nat)
    requires Locate(n0, b) == Go(n1, at, base, pointerBase)
    requires Lies(n0.family, es, base, footer, padded, n1.order, b, at, pointerBase)
    ensures Load(n0, b) == n1.(entries := es)
  {
    hide BlocksOf, LiesAt, Locate, Load, EntryOk, SumCounts, ParseAll, GetShort;
    var sh := Shape([], footer, base, at - pointerBase, padded);
    var ps := ParseAll(n0.family, n1.order, b, at + 2, |es|, base, pointerBase);
    CountThere(n0.family, es, base, footer, padded, n1.order, b, at, pointerBase);
    EntriesReadBack(n0.family, es, sh, n1.order, b, at, pointerBase, ps);
    LoadFrom(n1.(entries := es), n0, b, at, base, pointerBase, ps);
  }

  // ---- NikonV0 ----

  lemma {:induction false} NikonV0There(b: bytes, at: nat)
    requires at + 2 <= |b| && GetShort(b, at, Motorola) == 0x1b
    ensures Identify(b, at) == NikonV0
  {
    Differs(b, at, OLYMPUS, 0);
    Differs(b, at, OLYMP, 0);
    Differs(b, at, SANYO, 0);
    Differs(b, at, EPSON, 0);
    Differs(b, at, NIKON, 0);
    hide LiesAt;
  }

  /**
   A NikonV0 note has no header: it is a directory of 27 entries in Motorola order. It loads, whatever order the handler
   has been told.
   */
  lemma {:induction false} NikonV0Loads(n0: Note, es: seq<NoteEntry>, footer: nat, padded: bool, b: bytes)
    requires n0.family.OlympusF? && |es| == 27
    requires Lies(OlympusF, es, 0, footer, padded, Motorola, b, 6 + n0.offset, 6)
    ensures Load(n0, b) == n0.(version := NikonV0, order := Motorola, entries := es)
  {
    hide LiesAt, Load, EntryOk, SumCounts, GetShort, Identify, Directory;
    var at := 6 + n0.offset;
    CountThere(OlympusF, es, 0, footer, padded, Motorola, b, at, 6);
    NikonV0There(b, at);
    RoomFor(OlympusF, es, 0, footer, padded, Motorola, b, at, 6);
    DirectoryLoads(n0, n0.(version := NikonV0, order := Motorola), es, 0, footer, padded, b, at, 6);
  }

  lemma {:induction false} RoomFor(f: Family, es: seq<NoteEntry>, base: int, footer: nat, padded: bool,
                                   order: ByteOrder,
                                   b: bytes, at: nat, pointerBase: nat)
    requires Lies(f, es, base, footer, padded, order, b, at, pointerBase)
    ensures at + 2 + 12 * |es| <= |b|
  {
    hide Records, Values, EncShort, EntryOk, SumCounts, Items, Slots;
  }

  // ---- Directories in the other order than the header's or the caller's ----

  /** A count of up to 255 entries, read in the wrong order, is seen to be wrong exactly when it is at least six. */
  lemma {:induction false} FixedOrderExactly(b: bytes, at: nat, a: ByteOrder)
    requires at + 2 <= |b| && 0 < GetShort(b, at, Flip(a)) < 0x100
    ensures FixedOrder(b, at, a) == if GetShort(b, at, Flip(a)) >= 6 then Flip(a) else a
  {
    var n := GetShort(b, at, Flip(a));
    assert GetShort(b, at, a) == 0x100 * n;
    DivModUnique(0x100 * n, 0x100, n, 0);
  }

  /** The name of a first-version header. */
  function NameOf(v: Version): bytes
  {
    match v
    case OlympusV1 => OLYMP
    case SanyoV1 => SANYO
    case EpsonV1 => EPSON
    case _ => []
  }

  lemma {:induction false} NameFound(v: Version, b: bytes, at: nat)
    requires v.OlympusV1? || v.SanyoV1? || v.EpsonV1?
    requires LiesAt(b, at, NameOf(v)) && at + 8 <= |b|
    ensures Identify(b, at) == v
  {
    hide LiesAt, Identify;
    IdentifyLiterals(b, at);
  }

  /**
   A first-version Olympus, Sanyo or Epson note whose header tells the order `a`, or tells none when the caller's is
   `a`, and whose directory of six to 255 entries is in the other order: the loader notices, and loads it.
   */
  lemma {:induction false} OtherOrderLoads(n0: Note, v: Version, a: ByteOrder, es: seq<NoteEntry>, footer: nat,
                                           padded: bool, b: bytes)
    requires n0.family.OlympusF? && (v.OlympusV1? || v.SanyoV1? || v.EpsonV1?) && 6 <= |es| < 0x100
    requires LiesAt(b, 6 + n0.offset, NameOf(v))
    requires 14 + n0.offset <= |b| && HeaderTells(b, 12 + n0.offset, n0.order, a)
    requires Lies(OlympusF, es, 0, footer, padded, Flip(a), b, 14 + n0.offset, 6)
    ensures Load(n0, b) == n0.(version := v, order := Flip(a), entries := es)
  {
    hide LiesAt, Load, EntryOk, SumCounts, GetShort, Identify, Directory, FixedOrder;
    var o2, at := 6 + n0.offset, 14 + n0.offset;
    CountThere(OlympusF, es, 0, footer, padded, Flip(a), b, at, 6);
    FixedOrderExactly(b, at, a);
    NameFound(v, b, o2);
    DirectoryLoads(n0, n0.(version := v, order := Flip(a)), es, 0, footer, padded, b, at, 6);
  }

  /**
   The two bytes at `at` tell the order: a one in the low byte of the order they are in; otherwise it is the caller's.
   */
  predicate HeaderTells(b: bytes, at: nat, caller: ByteOrder, a: ByteOrder)
    requires at + 2 <= |b|
  {
    || (b[at] == 1 && a.Intel?)
    || (b[at] != 1 && b[at + 1] == 1 && a.Motorola?)
    || (b[at] != 1 && b[at + 1] != 1 && a == caller)
  }

  /** In the order told, such a note of any size loads as it is. */
  lemma {:induction false} ToldOrderLoads(n0: Note, v: Version, a: ByteOrder, es: seq<NoteEntry>, footer: nat,
                                          padded: bool, b: bytes)
    requires n0.family.OlympusF? && (v.OlympusV1? || v.SanyoV1? || v.EpsonV1?)
    requires LiesAt(b, 6 + n0.offset, NameOf(v))
    requires 14 + n0.offset <= |b| && HeaderTells(b, 12 + n0.offset, n0.order, a)
    requires Lies(OlympusF, es, 0, footer, padded, a, b, 14 + n0.offset, 6)
    ensures Load(n0, b) == n0.(version := v, order := a, entries := es)
  {
    hide LiesAt, Load, EntryOk, SumCounts, GetShort, Identify, Directory, FixedOrder;
    var o2, at := 6 + n0.offset, 14 + n0.offset;
    CountThere(OlympusF, es, 0, footer, padded, a, b, at, 6);
    NameFound(v, b, o2);
    DirectoryLoads(n0, n0.(version := v, order := a), es, 0, footer, padded, b, at, 6);
  }

  /** The same for a first-version Nikon note, whose header tells no order. */
  lemma {:induction false} OtherOrderNikonLoads(n0: Note, es: seq<NoteEntry>, footer: nat, padded: bool, b: bytes)
    requires n0.family.OlympusF? && 6 <= |es| < 0x100
    requires LiesAt(b, 6 + n0.offset, NIKON) && 14 + n0.offset <= |b| && b[12 + n0.offset] == 1
    requires Lies(OlympusF, es, 0x8000, footer, padded, Flip(n0.order), b, 14 + n0.offset, 6)
    ensures Load(n0, b) == n0.(version := NikonV1, order := Flip(n0.order), entries := es)
  {
    hide LiesAt, Load, EntryOk, SumCounts, GetShort, Identify, Directory, FixedOrder;
    var o2, at := 6 + n0.offset, 14 + n0.offset;
    CountThere(OlympusF, es, 0x8000, footer, padded, Flip(n0.order), b, at, 6);
    FixedOrderExactly(b, at, n0.order);
    IdentifyLiterals(b, o2);
    DirectoryLoads(n0, n0.(version := NikonV1, order := Flip(n0.order)), es, 0x8000, footer, padded, b, at, 6);
  }

  // ---- Directories that do not lie right behind the header ----

  /** A Fuji note names the place of its directory, counted from the start of the note, in Intel order. */
  lemma {:induction false} FujiLoads(n0: Note, d: nat, es: seq<NoteEntry>, footer: nat, padded: bool, b: bytes)
    requires n0.family.FujiF? && n0.offset + 18 <= |b| && GetLong(b, 14 + n0.offset, Intel) == d
    requires Lies(FujiF, es, 0, footer, padded, Intel, b, 6 + n0.offset + d, 6 + n0.offset)
    ensures Load(n0, b) == n0.(order := Intel, entries := es)
  {
    hide LiesAt, Load, EntryOk, SumCounts, GetShort, GetLong, Directory;
    var at := 6 + n0.offset + d;
    CountThere(FujiF, es, 0, footer, padded, Intel, b, at, 6 + n0.offset);
    DirectoryLoads(n0, n0.(order := Intel), es, 0, footer, padded, b, at, 6 + n0.offset);
  }

  /** So does a second-version Nikon note, counted from its byte-order mark, which also tells the order. */
  lemma {:induction false} NikonV2Loads(n0: Note, order: ByteOrder, skip: nat, es: seq<NoteEntry>, footer: nat,
                                        padded: bool, b: bytes)
    requires n0.family.OlympusF? && n0.offset + 24 <= |b|
    requires LiesAt(b, 6 + n0.offset, NIKON) && b[12 + n0.offset] == 2
    requires LiesAt(b, 16 + n0.offset, if order.Intel? then [0x49, 0x49] else [0x4d, 0x4d])
    requires GetLong(b, 20 + n0.offset, order) == skip && 20 + n0.offset + skip <= |b|
    requires Lies(OlympusF, es, 0, footer, padded, order, b, 16 + n0.offset + skip, 16 + n0.offset)
    ensures Load(n0, b) == n0.(version := NikonV2, order := order, entries := es)
  {
    hide LiesAt, Load, EntryOk, SumCounts, GetShort, GetLong, Directory, Identify;
    var at := 16 + n0.offset + skip;
    CountThere(OlympusF, es, 0, footer, padded, order, b, at, 16 + n0.offset);
    IdentifyLiterals(b, 6 + n0.offset);
    OrderMarks(b, 16 + n0.offset, order);
    DirectoryLoads(n0, n0.(version := NikonV2, order := order), es, 0, footer, padded, b, at, 16 + n0.offset);
  }

  /** Without such a mark it is not loaded. */
  lemma {:induction false} NikonV2Unmarked(n0: Note, b: bytes)
    requires n0.family.OlympusF? && n0.offset + 24 <= |b|
    requires LiesAt(b, 6 + n0.offset, NIKON) && b[12 + n0.offset] == 2
    requires !LiesAt(b, 16 + n0.offset, [0x49, 0x49]) && !LiesAt(b, 16 + n0.offset, [0x4d, 0x4d])
    ensures Load(n0, b) == n0.(version := NikonV2)
  {
    hide LiesAt, Identify;
    IdentifyLiterals(b, 6 + n0.offset);
  }

  /** A second-version Olympus note without a byte-order mark is read in the caller's order. */
  lemma {:induction false} OlympusV2Unmarked(n0: Note, es: seq<NoteEntry>, footer: nat, padded: bool, b: bytes)
    requires n0.family.OlympusF? && LiesAt(b, 6 + n0.offset, OLYMPUS) && n0.offset + 18 <= |b|
    requires !LiesAt(b, 14 + n0.offset, [0x49, 0x49]) && !LiesAt(b, 14 + n0.offset, [0x4d, 0x4d])
    requires Lies(OlympusF, es, 0, footer, padded, n0.order, b, 18 + n0.offset, 6 + n0.offset)
    ensures Load(n0, b) == n0.(version := OlympusV2, entries := es)
  {
    hide LiesAt, Load, EntryOk, SumCounts, GetShort, Directory, Identify;
    var at := 18 + n0.offset;
    CountThere(OlympusF, es, 0, footer, padded, n0.order, b, at, 6 + n0.offset);
    IdentifyLiterals(b, 6 + n0.offset);
    DirectoryLoads(n0, n0.(version := OlympusV2), es, 0, footer, padded, b, at, 6 + n0.offset);
  }
}
