/**
 The maker-note codecs (Canon, Fuji, Olympus/Nikon/Sanyo/Epson, Pentax/Casio): four handlers over
 one relocatable directory format. Saving is told the TIFF offset at which the note will lie;
 loading is told the same offset and the whole file.
 */
module MakerNote {
  import opened Bytes
  import opened Tiff

  /** The handler in charge; it is chosen once, when the note is recognised. */
  datatype Family = CanonF | FujiF | OlympusF | PentaxF

  /** The header variant; only the Olympus and Pentax handlers have several. */
  datatype Version =
    | Unrecognized | CanonV | FujiV
    | NikonV0 | NikonV1 | NikonV2 | OlympusV1 | OlympusV2 | SanyoV1 | EpsonV1
    | PentaxV1 | PentaxV2 | PentaxV3 | CasioV2

  /** `data` is empty where the C pointer is NULL; otherwise its length is the C field `size`. */
  datatype NoteEntry = NoteEntry(tag: int, format: int, components: nat, order: ByteOrder, data: bytes)

  datatype Note = Note(family: Family, version: Version, order: ByteOrder, offset: nat, entries: seq<NoteEntry>)

  const NIKON1_TAG_BASE := 0x8000
  const PENTAX2_TAG_BASE := 0x4000
  const FAILSAFE_SIZE_MAX := 1_000_000
  const MAX_VALUE := 65536

  function FamilyOf(v: Version): Family
  {
    match v
    case CanonV => CanonF
    case FujiV => FujiF
    case PentaxV1 | PentaxV2 | PentaxV3 | CasioV2 => PentaxF
    case _ => OlympusF
  }

  // ---- The variants ----

  const OLYMP: bytes := [0x4f, 0x4c, 0x59, 0x4d, 0x50, 0]
  const OLYMPUS: bytes := [0x4f, 0x4c, 0x59, 0x4d, 0x50, 0x55, 0x53, 0]
  const SANYO: bytes := [0x53, 0x41, 0x4e, 0x59, 0x4f, 0]
  const EPSON: bytes := [0x45, 0x50, 0x53, 0x4f, 0x4e, 0]
  const NIKON: bytes := [0x4e, 0x69, 0x6b, 0x6f, 0x6e, 0]
  const AOC: bytes := [0x41, 0x4f, 0x43, 0]
  const QVC: bytes := [0x51, 0x56, 0x43, 0]

  /** The two letters by which a header records its byte order. */
  function OrderMark(order: ByteOrder): (m: bytes)
    ensures |m| == 2
  {
    if order.Intel? then [0x49, 0x49] else [0x4d, 0x4d]
  }

  /** Everything before the entry count. */
  ghost function Header(v: Version, order: ByteOrder): (h: bytes)
  {
    match v
    case Unrecognized | CanonV | PentaxV1 => []
    case FujiV => FUJIFILM + EncLong(12, order)
    case OlympusV1 => OLYMP + EncShort(1, order)
    case SanyoV1 => SANYO + EncShort(1, order)
    case EpsonV1 => EPSON + EncShort(1, order)
    case OlympusV2 => OLYMPUS + OrderMark(order) + EncShort(3, order)
    case NikonV1 => NIKON + [1, 0]
    case NikonV2 => NIKON + [2, 0, 0, 0] + OrderMark(order) + EncShort(0x2a, order) + EncLong(8, order)
    case NikonV0 => NIKON + [7, 0, 0, 0] + OrderMark(order) + EncShort(0x2a, order) + EncLong(8, order)
    case PentaxV2 => AOC + EncShort(0, order)
    case PentaxV3 => AOC + OrderMark(order)
    case CasioV2 => QVC + EncShort(0, order)
  }

  /** What a handler adds to the tags of its variant. */
  function TagBase(v: Version): int
  {
    match v
    case NikonV1 => NIKON1_TAG_BASE
    case PentaxV2 | PentaxV3 | CasioV2 => PENTAX2_TAG_BASE
    case _ => 0
  }

  /**
   The parameters of the directory format: the bytes before the entry count, the number of zero
   bytes after the records, the tag base, what turns a position in the note into the pointer
   stored for it, and whether values are padded to even positions.
   */
  datatype Shape = Shape(header: bytes, footer: nat, base: int, origin: int, padded: bool)

  ghost function ShapeOf(v: Version, order: ByteOrder, offset: nat): Shape
  {
    Shape(Header(v, order),
      match v {
        case Unrecognized | OlympusV1 | SanyoV1 | EpsonV1 => 0
        case OlympusV2 => 2
        case _ => 4
      },
      TagBase(v),
      match v {
        case FujiV | OlympusV2 => 0
        case NikonV2 | NikonV0 => -10
        case _ => offset
      },
      v.CanonV? || v.FujiV?)
  }

  function Limit(f: Family): nat
  {
    match f
    case CanonF => 250
    case FujiF => 150
    case OlympusF => 300
    case PentaxF => 200
  }

  // ---- Saving ----

  function ValueSize(e: NoteEntry): nat { ValueBytes(e.format, e.components) }

  /** The bytes copied for an entry: zeros for a NULL pointer, nothing for an oversized value. */
  function Payload(e: NoteEntry): (p: bytes)
    ensures |p| == if ValueSize(e) > MAX_VALUE then 0 else ValueSize(e)
  {
    var s := ValueSize(e);
    if s > MAX_VALUE then []
    else if s <= |e.data| then e.data[..s]
    else e.data + Zeros(s - |e.data|)
  }

  function SlotOf(e: NoteEntry, base: int): Slot
  {
    Slot(e.tag - base, e.format, e.components, Payload(e))
  }

  function Slots(es: seq<NoteEntry>, base: int): (s: seq<Slot>)
    ensures |s| == |es|
  {
    seq(|es|, i requires 0 <= i < |es| => SlotOf(es[i], base))
  }

  /** Where in the note the values start. */
  function ValueArea(sh: Shape, count: nat): nat
  {
    |sh.header| + 2 + 12 * count + sh.footer
  }

  /** Header, count, records, footer and values, one after the other. */
  ghost function Blocks(sh: Shape, order: ByteOrder, items: seq<Item>, vals: bytes): (b: bytes)
  {
    sh.header + EncShort(|items|, order) + Records(items, |items|, order) + Zeros(sh.footer) + vals
  }

  ghost function BlocksOf(slots: seq<Slot>, sh: Shape, order: ByteOrder): (b: bytes)
  {
    Blocks(sh, order, Items(slots, sh.origin + ValueArea(sh, |slots|), sh.padded), Values(slots, |slots|, sh.padded))
  }

  /** The saved note. */
  ghost function Image(n: Note): (b: bytes)
    requires !n.version.Unrecognized?
  {
    BlocksOf(Slots(n.entries, TagBase(n.version)), ShapeOf(n.version, n.order, n.offset), n.order)
  }

  /**
   The buffer and the size a save hands over. For a variant it does not recognise a handler sets
   the size only, and the buffer pointer stays NULL.
   */
  ghost function Saved(n: Note): (r: (bytes, nat))
  {
    if n.version.Unrecognized? then ([], (if n.family.PentaxF? then 12 else 10) + 12 * |n.entries|)
    else (Image(n), |Image(n)|)
  }

  // ---- Loading ----

  /** mnote_canon_entry_count_values: how many values of an entry are listed one by one. */
  function CountValues(e: NoteEntry): (c: nat)
  {
    if e.tag == 0x2 || e.tag == 0x5 then e.components
    else if e.tag in {0x1, 0x4, 0xf, 0xa0} then
      if e.format != FMT_SHORT || |e.data| < 2 then 0
      else
        var val := GetShort(e.data, 0, e.order);
        (if |e.data| - 2 < val then |e.data| - 2 else val) / 2
    else 1
  }

  function SumCounts(es: seq<NoteEntry>): nat
  {
    if es == [] then 0 else CountValues(es[0]) + SumCounts(es[1..])
  }

  /** exif_mnote_data_olympus_identify_variant on the bytes from `at` on. */
  function Identify(b: bytes, at: nat): Version
    requires at <= |b|
  {
    var nikon0 := if |b| - at >= 2 && b[at] == 0 && b[at + 1] == 0x1b then NikonV0 else Unrecognized;
    if |b| - at < 8 then nikon0
    else if LiesAt(b, at, OLYMPUS) then OlympusV2
    else if LiesAt(b, at, OLYMP) then OlympusV1
    else if LiesAt(b, at, SANYO) then SanyoV1
    else if LiesAt(b, at, EPSON) then EpsonV1
    else if LiesAt(b, at, NIKON) then
      if b[at + 6] == 1 then NikonV1 else if b[at + 6] == 2 then NikonV2 else Unrecognized
    else nikon0
  }

  /** Outcome of reading a header: give up, or the position of the entry count and the pointer base. */
  datatype Located = Stop(note: Note) | Go(note: Note, countAt: nat, base: int, pointerBase: int)

  function Flip(order: ByteOrder): ByteOrder { if order.Intel? then Motorola else Intel }

  /** A count that looks byte-swapped makes the loader switch to the other order. */
  function FixedOrder(b: bytes, at: nat, order: ByteOrder): ByteOrder
    requires at + 2 <= |b|
  {
    var c := GetShort(b, at, order);
    if c % 0x100 == 0 && c > 0x500 then Flip(order) else order
  }

  function LocateCanon(n: Note, b: bytes): Located
  {
    if CheckOverflow(n.offset, |b|, 8) then Stop(n) else Go(n, 6 + n.offset, 0, 6)
  }

  function LocateFuji(n: Note, b: bytes): Located
  {
    if CheckOverflow(n.offset, |b|, 6 + 8 + 4) then Stop(n)
    else
      var n' := n.(order := Intel);
      var at := 6 + n.offset + GetLong(b, 6 + n.offset + 8, Intel);
      if CheckOverflow(at, |b|, 2) then Stop(n') else Go(n', at, 0, 6 + n.offset)
  }

  function LocateOlympus(n: Note, b: bytes): Located
  {
    var o2 := 6 + n.offset;
    if CheckOverflow(o2, |b|, 10) then Stop(n)
    else
      var n := n.(version := Identify(b, o2));
      match n.version
      case OlympusV1 | SanyoV1 | EpsonV1 =>
        var order := if b[o2 + 6] == 1 then Intel else if b[o2 + 7] == 1 then Motorola else n.order;
        Go(n.(order := FixedOrder(b, o2 + 8, order)), o2 + 8, 0, 6)
      case OlympusV2 =>
        if CheckOverflow(o2 + 8, |b|, 4) then Stop(n)
        else
          var order := if LiesAt(b, o2 + 8, OrderMark(Intel)) then Intel
                       else if LiesAt(b, o2 + 8, OrderMark(Motorola)) then Motorola else n.order;
          GoOlympus(n.(order := order), b, o2 + 12, 0, o2)
      case NikonV1 =>
        Go(n.(order := FixedOrder(b, o2 + 8, n.order)), o2 + 8, NIKON1_TAG_BASE, 6)
      case NikonV2 =>
        if CheckOverflow(o2 + 6, |b|, 12) then Stop(n)
        else if !LiesAt(b, o2 + 10, OrderMark(Intel)) && !LiesAt(b, o2 + 10, OrderMark(Motorola)) then Stop(n)
        else
          var order := if LiesAt(b, o2 + 10, OrderMark(Intel)) then Intel else Motorola;
          var n := n.(order := order);
          var skip := GetLong(b, o2 + 14, order);
          if CheckOverflow(o2 + 14, |b|, skip) then Stop(n)
          else GoOlympus(n, b, o2 + 10 + skip, 0, o2 + 10)
      case NikonV0 =>
        Go(n.(order := Motorola), o2, 0, 6)
      case _ => Stop(n)
  }

  function GoOlympus(n: Note, b: bytes, at: nat, base: int, pointerBase: int): Located
  {
    if CheckOverflow(at, |b|, 2) then Stop(n) else Go(n, at, base, pointerBase)
  }

  function LocatePentax(n: Note, b: bytes): Located
  {
    var at := 6 + n.offset;
    if CheckOverflow(at, |b|, 8) then Stop(n)
    else if LiesAt(b, at, AOC) then
      var n := if LiesAt(b, at + 4, OrderMark(Intel)) then n.(version := PentaxV3, order := Intel)
               else if LiesAt(b, at + 4, OrderMark(Motorola)) then n.(version := PentaxV3, order := Motorola)
               else n.(version := PentaxV2);
      Go(n, at + 6, PENTAX2_TAG_BASE, 6)
    else if LiesAt(b, at, QVC) then
      Go(n.(version := CasioV2), at + 6, PENTAX2_TAG_BASE, 6)
    else
      Go(n.(version := PentaxV1), at, 0, 6)
  }

  function Locate(n: Note, b: bytes): (l: Located)
    ensures l.Go? ==> l.countAt + 2 <= |b|
    ensures l.note == n.(order := l.note.order, version := l.note.version)
    ensures l.Go? ==> l.pointerBase >= 0
  {
    match n.family
    case CanonF => LocateCanon(n, b)
    case FujiF => LocateFuji(n, b)
    case OlympusF => LocateOlympus(n, b)
    case PentaxF => LocatePentax(n, b)
  }

  datatype Parsed = Keep(e: NoteEntry) | Skip | Abort

  /** What becomes of an entry whose value has `s` bytes starting at `at`. */
  function ParseValue(f: Family, b: bytes, e: NoteEntry, s: nat, at: nat): Parsed
  {
    if s > |b| then
      if f.PentaxF? then Abort else Skip
    else if s == 0 then
      if f.CanonF? then Skip else Keep(e)
    else
      if CheckOverflow(at, |b|, s) then Skip else Keep(e.(data := b[at..at + s]))
  }

  /**
   Where a stored pointer leads, counted from `pointerBase`. Canon, Fuji and Pentax add in 32 bits, so that pointers
   near the end of that range come round to the start of the file; the Olympus handler adds in a wider type.
   */
  function ValuePlace(f: Family, stored: nat, pointerBase: nat): nat
  {
    if f.OlympusF? then stored + pointerBase else (stored + pointerBase) % U32
  }

  function ParseFields(f: Family, order: ByteOrder, b: bytes, o: nat, x: Fields, base: int, pointerBase: nat): Parsed
  {
    var s := ValueBytes(x.format, x.components);
    var at := if s > 4 then ValuePlace(f, x.stored, pointerBase) else o + 8;
    ParseValue(f, b, NoteEntry(x.tag + base, x.format, x.components, order, []), s, at)
  }

  /** One iteration of a load loop, the record lying at `o`. */
  function ParseOne(f: Family, order: ByteOrder, b: bytes, o: nat, base: int, pointerBase: nat): Parsed
  {
    if CheckOverflow(o, |b|, 12) then Abort else ParseFields(f, order, b, o, ReadFields(b, o, order), base, pointerBase)
  }

  /** What each of the `c` records starting at `o` parses as. */
  function ParseAll(f: Family, order: ByteOrder, b: bytes, o: nat, c: nat, base: int,
                    pointerBase: nat): (ps: seq<Parsed>)
    ensures |ps| == c
  {
    seq(c, k requires 0 <= k < c => ParseOne(f, order, b, o + 12 * k, base, pointerBase))
  }

  /** The entries the load loop stores; `total` is Canon's failsafe sum so far. */
  function Collect(f: Family, ps: seq<Parsed>, total: nat): (es: seq<NoteEntry>)
  {
    if ps == [] then []
    else
      match ps[0]
      case Abort => []
      case Skip => Collect(f, ps[1..], total)
      case Keep(e) =>
        var total' := if f.CanonF? then total + CountValues(e) else total;
        if total' > FAILSAFE_SIZE_MAX then [] else [e] + Collect(f, ps[1..], total')
  }

  /** The state a load leaves behind. */
  function Load(n: Note, b: bytes): (r: Note)
  {
    if b == [] then n
    else
      match Locate(n, b)
      case Stop(n') => n'
      case Go(n', at, base, pointerBase) =>
        var c := GetShort(b, at, n'.order);
        if c > Limit(n.family) then n'
        else n'.(entries := Collect(n.family, ParseAll(n.family, n'.order, b, at + 2, c, base, pointerBase), 0))
  }
}
