/** The maker-note handlers as objects that fill their entries and write their buffer step by step. */
module MakerNoteObject {
  import opened Bytes
  import opened Tiff
  import opened TiffWriter
  import opened MakerNote
  import opened ByteOrderSwitch
  import MakerNoteOrder

  // ---- Writing into a buffer ----

  lemma {:induction false} ZerosSplit(a: nat, b: nat)
    ensures Zeros(a + b) == Zeros(a) + Zeros(b)
  {
  }

  /** Filling the first zero bytes after a prefix. */
  lemma {:induction false} PutZeros(h: bytes, n: nat, x: bytes)
    requires |x| <= n
    ensures Put(h + Zeros(n), |h|, x) == h + x + Zeros(n - |x|)
  {
    ZerosSplit(|x|, n - |x|);
    PutMiddle(h, Zeros(|x|), Zeros(n - |x|), x);
    assert h + Zeros(n) == h + Zeros(|x|) + Zeros(n - |x|);
  }

  lemma {:induction false} OrderMarkIsShort(order: ByteOrder)
    ensures ShortDigits(if order.Intel? then 0x4949 else 0x4d4d, order) == OrderMark(order)
  {
  }

  /** Writes an 'x' right behind what is written already. */
  method Append(buf: bytes, ghost h: bytes, n: nat, x: bytes) returns (r: bytes)
    requires buf == h + Zeros(n) && |x| <= n && |buf| >= n
    ensures r == h + x + Zeros(n - |x|)
  {
    PutZeros(h, n, x);
    r := Put(buf, |buf| - n, x);
  }

  /** A zeroed buffer that starts with `x`. */
  method Begin(x: bytes, n: nat) returns (r: bytes)
    requires |x| <= n
    ensures r == x + Zeros(n - |x|)
  {
    assert Zeros(n) == [] + Zeros(n) && [] + x == x;
    r := Append(Zeros(n), [], n, x);
  }

  // ---- The headers ----

  /** A name followed by two bytes. */
  method WriteName(name: bytes, x: bytes, room: nat) returns (buf: bytes)
    ensures buf == name + x + Zeros(room)
  {
    hide Zeros, Put;
    buf := Begin(name, |name| + |x| + room);
    buf := Append(buf, name, |x| + room, x);
  }

  method WriteOlympusV2(order: ByteOrder, room: nat) returns (buf: bytes)
    ensures buf == OLYMPUS + OrderMark(order) + EncShort(3, order) + Zeros(room)
  {
    hide Zeros, Put, ShortDigits, OrderMark, EncShort;
    ShortDigitsMeetSpec(3, order);
    OrderMarkIsShort(order);
    var mark := ShortDigits(if order.Intel? then 0x4949 else 0x4d4d, order);
    buf := Begin(OLYMPUS, 12 + room);
    buf := Append(buf, OLYMPUS, 4 + room, mark);
    buf := Append(buf, OLYMPUS + mark, 2 + room, ShortDigits(3, order));
  }

  /** The Nikon header with the version byte `v`. */
  method WriteNikonV2(v: byte, order: ByteOrder, room: nat) returns (buf: bytes)
    ensures buf == NIKON + [v, 0, 0, 0] + OrderMark(order) + EncShort(0x2a, order) + EncLong(8, order) + Zeros(room)
  {
    hide Zeros, Put, ShortDigits, LongDigits, OrderMark, EncShort, EncLong;
    ShortDigitsMeetSpec(0x2a, order);
    LongDigitsMeetSpec(8, order);
    OrderMarkIsShort(order);
    var mark := ShortDigits(if order.Intel? then 0x4949 else 0x4d4d, order);
    buf := Begin(NIKON, 18 + room);
    ghost var h := NIKON + [v, 0, 0, 0];
    buf := Append(buf, NIKON, 12 + room, [v, 0, 0, 0]);
    buf := Append(buf, h, 8 + room, mark);
    buf := Append(buf, h + mark, 6 + room, ShortDigits(0x2a, order));
    buf := Append(buf, h + mark + ShortDigits(0x2a, order), 4 + room, LongDigits(8, order));
  }

  /** The header of a variant, with room for `room` more zero bytes. */
  method WriteHeader(v: Version, order: ByteOrder, room: nat) returns (buf: bytes, o2: nat)
    requires !v.Unrecognized?
    ensures o2 == |Header(v, order)| && buf == Header(v, order) + Zeros(room)
  {
    hide Zeros, Put, ShortDigits, LongDigits, EncShort, EncLong;
    match v {
      case CanonV | PentaxV1 =>
        buf, o2 := Zeros(room), 0;
        assert [] + Zeros(room) == Zeros(room);
      case FujiV =>
        LongDigitsMeetSpec(12, order);
        buf := WriteName(FUJIFILM, LongDigits(12, order), room);
        o2 := 12;
      case OlympusV1 | SanyoV1 | EpsonV1 =>
        ShortDigitsMeetSpec(1, order);
        buf := WriteName(if v.SanyoV1? then SANYO else if v.EpsonV1? then EPSON
          else OLYMP, ShortDigits(1, order), room);
        o2 := 8;
      case OlympusV2 =>
        buf := WriteOlympusV2(order, room);
        o2 := 12;
      case NikonV1 =>
        buf := WriteName(NIKON, [1, 0], room);
        o2 := 8;
      case NikonV2 | NikonV0 =>
        buf := WriteNikonV2(if v.NikonV2? then 2 else 7, order, room);
        o2 := 18;
      case PentaxV2 | CasioV2 =>
        ShortDigitsMeetSpec(0, order);
        buf := WriteName(if v.PentaxV2? then AOC else QVC, ShortDigits(0, order), room);
        o2 := 6;
      case PentaxV3 =>
        OrderMarkIsShort(order);
        buf := WriteName(AOC, ShortDigits(if order.Intel? then 0x4949 else 0x4d4d, order), room);
        o2 := 6;
    }
  }

  // ---- The entries ----

  /** A value of more than four bytes goes to the end of the buffer, padded if the variant wants it. */
  method PutOutside(buf: bytes, o: nat, e: NoteEntry, datao: int, padded: bool, order: ByteOrder, ghost a: bytes,
                    ghost c: bytes) returns (r: bytes)
    requires buf == a + Zeros(4) + c && |a| == o && 4 < ValueSize(e) <= MAX_VALUE
    ensures r == a + EncLong(datao + |buf|, order) + (c + OutOfLine(Payload(e), padded))
  {
    hide Zeros, EncLong, Put, ValueSize;
    var s := ValueSize(e);
    var doff := |buf|;
    var ts := |buf| + s;
    if padded && s % 2 == 1 {
      ts := ts + 1;
    }
    var t := Realloc(buf, ts);
    ghost var junk := t[doff..];
    assert t == buf + junk;
    var value := ValueOf(e);
    if padded && s % 2 == 1 {
      PutAt(t, buf + junk[..s], junk[s..], [], [0]) by { assert t == buf + junk[..s] + junk[s..] + []; }
      t := Put(t, ts - 1, [0]);
      assert t == buf + junk[..s] + [0];
      PutAt(t, buf, junk[..s], [0], value);
      t := Put(t, doff, value);
      assert t == buf + OutOfLine(Payload(e), padded);
    } else {
      PutAt(t, buf, junk, [], value) by { assert t == buf + junk + []; }
      t := Put(t, doff, value);
      assert t == buf + OutOfLine(Payload(e), padded);
    }
    assert t == a + Zeros(4) + (c + OutOfLine(Payload(e), padded));
    r := PutLong(t, o, datao + doff, order, a, Zeros(4), c + OutOfLine(Payload(e), padded));
  }

  /** The bytes memcpy or memset puts down for a value. */
  method ValueOf(e: NoteEntry) returns (v: bytes)
    requires ValueSize(e) <= MAX_VALUE
    ensures v == Payload(e)
  {
    var s := ValueSize(e);
    if s <= |e.data| {
      v := e.data[..s];
    } else {
      v := e.data + Zeros(s - |e.data|);
    }
  }

  /** The value of an entry, in its record or at the end of the buffer; an oversized one is left out. */
  method WriteValue(buf: bytes, o: nat, e: NoteEntry, datao: int, padded: bool, order: ByteOrder, ghost a: bytes,
                    ghost c: bytes) returns (r: bytes)
    requires buf == a + Zeros(4) + c && |a| == o
    ensures r == a + ValueField(Payload(e), datao + |buf|, order) + (c + OutOfLine(Payload(e), padded))
  {
    hide Zeros, EncLong, Put, ValueSize;
    var s := ValueSize(e);
    if s > MAX_VALUE {
      assert [] + Zeros(4) == Zeros(4) && c + [] == c;
      return buf;
    }
    if s > 4 {
      r := PutOutside(buf, o, e, datao, padded, order, a, c);
    } else {
      var value := ValueOf(e);
      ZerosSplit(s, 4 - s);
      assert buf == a + Zeros(s) + (Zeros(4 - s) + c);
      PutAt(buf, a, Zeros(s), Zeros(4 - s) + c, value);
      r := Put(buf, o, value);
      assert c + [] == c;
      assert r == a + (value + Zeros(4 - s)) + c;
    }
  }

  /** One turn of a save loop, over the twelve zero bytes of the record. */
  method WriteEntry(buf: bytes, o: nat, e: NoteEntry, base: int, datao: int, padded: bool, order: ByteOrder,
                    ghost a: bytes, ghost c: bytes) returns (r: bytes)
    requires buf == a + Zeros(12) + c && |a| == o
    ensures r == a + Record(Item(SlotOf(e, base), datao + |buf|), order) + (c + OutOfLine(Payload(e), padded))
  {
    hide Zeros, Put, Record, Head, ValueField, OutOfLine, Payload;
    RecordIs(Item(SlotOf(e, base), datao + |buf|), order);
    ghost var h := Head(e.tag - base, e.format, e.components, order);
    ghost var v, w := ValueField(Payload(e), datao + |buf|, order), c + OutOfLine(Payload(e), padded);
    ZerosSplit(8, 4);
    assert buf == a + Zeros(8) + (Zeros(4) + c);
    r := PutHead(buf, o, e.tag - base, e.format, e.components, order, a, Zeros(8), Zeros(4) + c);
    assert r == (a + h) + Zeros(4) + c;
    r := WriteValue(r, o + 8, e, datao, padded, order, a + h, c);
    assert a + h + v + w == a + (h + v) + w;
  }

  /** One turn of a set_byte_order loop. */
  method SwitchEntry(e: NoteEntry, a: ByteOrder, b: ByteOrder) returns (r: NoteEntry)
    ensures r == MakerNoteOrder.SwitchedEntry(e, a, b)
  {
    hide Switched;
    if MakerNoteOrder.TooShort(e) {
      return e;
    }
    MakerNoteOrder.LongEnough(e);
    var data := SwitchValue(e.format, e.data, e.components, a, b);
    r := e.(order := b, data := data);
  }

  // ---- The object ----

  class MnoteData {
    const family: Family
    var version: Version
    var order: ByteOrder
    var offset: nat
    var entries: seq<NoteEntry>

    constructor (family: Family, version: Version)
      ensures Value() == Note(family, version, Motorola, 0, [])
    {
      this.family, this.version := family, version;
      order, offset, entries := Motorola, 0, [];
    }

    ghost function Value(): Note
      reads this
    {
      Note(family, version, order, offset, entries)
    }

    /** What set_offset does. */
    method SetOffset(o: nat)
      modifies this`offset
      ensures Value() == old(Value()).(offset := o)
    {
      offset := o;
    }

    /** The footer size, and what a save loop adds to a position in the buffer to get a stored pointer. */
    method SaveParameters() returns (base: int, datao: int, footer: nat, padded: bool)
      requires !version.Unrecognized?
      ensures ShapeOf(version, order, offset) == Shape(Header(version, order), footer, base, datao, padded)
    {
      base, datao, footer, padded := 0, offset, 4, false;
      match version {
        case CanonV =>
          padded := true;
        case FujiV =>
          padded, datao := true, 0;
        case OlympusV1 | SanyoV1 | EpsonV1 =>
          footer := 0;
        case OlympusV2 =>
          footer, datao := 2, 0;
        case NikonV1 =>
          base := NIKON1_TAG_BASE;
          datao := offset + 10 - 10;
        case NikonV2 | NikonV0 =>
          datao := -10;
        case PentaxV2 | PentaxV3 | CasioV2 =>
          base := PENTAX2_TAG_BASE;
        case PentaxV1 =>
      }
    }

    /** The save loop, from the zeroed records on; `p` is what precedes them. */
    method SaveEntries(start: bytes, o2: nat, base: int, datao: int, padded: bool, ghost p: bytes, ghost footer: nat,
                       ghost slots: seq<Slot>, ghost items: seq<Item>)
      returns (buf: bytes)
      requires start == p + Zeros(12 * |entries|) + Zeros(footer) && |p| == o2
      requires slots == Slots(entries, base) && items == Items(slots, datao + |start|, padded)
      ensures buf == p + Records(items, |items|, order) + Zeros(footer) + Values(slots, |slots|, padded)
    {
      hide Zeros, Record, Records, Values, OutOfLine, Payload;
      buf := start;
      var n := |entries|;
      StartGlue(p, Zeros(12 * n), Zeros(footer), items, slots, order, padded);
      for i := 0 to n
        invariant buf == p + Records(items, i, order) + Zeros(12 * (n - i)) + Zeros(footer) + Values(slots, i, padded)
        invariant |buf| == |start| + |Values(slots, i, padded)|
      {
        ghost var a := p + Records(items, i, order);
        ghost var c := Zeros(12 * (n - i - 1)) + Zeros(footer) + Values(slots, i, padded);
        ZerosSplit(12, 12 * (n - i - 1));
        assert buf == a + Zeros(12) + c;
        buf := WriteEntry(buf, o2 + i * 12, entries[i], base, datao, padded, order, a, c);
        RecordsNext(items, i, order);
        ValuesNext(slots, i, padded);
        TurnGlue(p, Records(items, i, order), Record(items[i], order), Zeros(12 * (n - i - 1)), Zeros(footer),
          Values(slots, i, padded), OutOfLine(Payload(entries[i]), padded));
      }
      EndGlue(p, Records(items, n, order), Zeros(footer), Values(slots, n, padded));
    }

    /** Writes the note for the offset it has been told; an unrecognized variant yields a size only. */
    method Save() returns (buf: bytes, size: nat)
      ensures (buf, size) == Saved(Value())
    {
      hide Zeros, Header, Record, Records, Values, EncShort, Slots, Items;
      var n := |entries|;
      if version.Unrecognized? {
        buf := [];
        size := (if family.PentaxF? then 12 else 10) + 12 * n;
        return;
      }
      var base, datao, footer, padded := SaveParameters();
      ghost var h := Header(version, order);
      var o2;
      buf, o2 := WriteHeader(version, order, 2 + 12 * n + footer);
      ZerosSplit(2, 12 * n + footer);
      ZerosSplit(12 * n, footer);
      assert buf == h + Zeros(2) + Zeros(12 * n + footer);
      buf := PutShort(buf, o2, n, order, h, Zeros(2), Zeros(12 * n + footer));
      ghost var p := h + EncShort(n, order);
      assert buf == p + Zeros(12 * n) + Zeros(footer);
      ghost var slots := Slots(entries, base);
      buf := SaveEntries(buf, o2 + 2, base, datao, padded, p, footer, slots, Items(slots, datao + |buf|, padded));
      size := |buf|;
    }

    /** What set_byte_order does: each entry's data are turned, unless there are too few of them. */
    method SetByteOrder(o: ByteOrder)
      modifies this`order, this`entries
      ensures Value() == MakerNoteOrder.SwitchedNote(old(Value()), o)
    {
      hide Switched, MakerNoteOrder.SwitchedEntry;
      var orig := order;
      ghost var es := entries;
      order := o;
      for i := 0 to |entries|
        invariant order == o && |entries| == |es|
        invariant forall k :: 0 <= k < i ==> entries[k] == MakerNoteOrder.SwitchedEntry(es[k], orig, o)
        invariant forall k :: i <= k < |es| ==> entries[k] == es[k]
      {
        var e := SwitchEntry(entries[i], orig, o);
        entries := entries[i := e];
      }
      assert entries == MakerNoteOrder.SwitchedNote(old(Value()), o).entries;
    }

    // ---- Loading ----

    /** Canon: nothing but the offset to check. */
    method LocateCanonNote(b: bytes) returns (go: bool, at: nat)
      requires family.CanonF?
      ensures Locate(Value(), b) == if go then Go(Value(), at, 0, 6) else Stop(Value())
    {
      at := 6 + offset;
      go := !CheckOverflow(offset, |b|, 8);
    }

    /** Fuji: always little-endian, with the directory where the header says. */
    method LocateFujiNote(b: bytes) returns (go: bool, at: nat)
      requires family.FujiF?
      modifies this`order
      ensures Locate(old(Value()), b) == if go then Go(Value(), at, 0, 6 + offset) else Stop(Value())
    {
      hide GetLong;
      at := 6 + offset;
      if CheckOverflow(offset, |b|, 6 + 8 + 4) {
        return false, at;
      }
      order := Intel;
      at := at + GetLong(b, at + 8, Intel);
      go := !CheckOverflow(at, |b|, 2);
    }

    /** Switches the byte order if the entry count looks swapped. */
    method FixOrder(b: bytes, at: nat)
      requires at + 2 <= |b|
      modifies this`order
      ensures order == FixedOrder(b, at, old(order))
    {
      var c := GetShort(b, at, order);
      if c % 0x100 == 0 && c > 0x500 {
        order := if order.Intel? then Motorola else Intel;
      }
    }

    /** Olympus, Nikon, Sanyo and Epson: the variant is recognized first. */
    method LocateOlympusNote(b: bytes) returns (go: bool, at: nat, base: int, pointerBase: nat)
      requires family.OlympusF?
      modifies this`order, this`version
      ensures Locate(old(Value()), b) == if go then Go(Value(), at, base, pointerBase) else Stop(Value())
    {
      hide GetLong, Identify, LiesAt, FixedOrder;
      var o2 := 6 + offset;
      at, base, pointerBase, go := o2, 0, 6, false;
      if CheckOverflow(o2, |b|, 10) {
        return;
      }
      version := Identify(b, o2);
      match version {
        case OlympusV1 | SanyoV1 | EpsonV1 =>
          if b[o2 + 6] == 1 {
            order := Intel;
          } else if b[o2 + 7] == 1 {
            order := Motorola;
          }
          at := o2 + 8;
          FixOrder(b, at);
        case OlympusV2 =>
          pointerBase := o2;
          if CheckOverflow(o2 + 8, |b|, 4) {
            return;
          }
          if LiesAt(b, o2 + 8, OrderMark(Intel)) {
            order := Intel;
          } else if LiesAt(b, o2 + 8, OrderMark(Motorola)) {
            order := Motorola;
          }
          at := o2 + 12;
        case NikonV1 =>
          at, base := o2 + 8, NIKON1_TAG_BASE;
          FixOrder(b, at);
        case NikonV2 =>
          if CheckOverflow(o2 + 6, |b|, 12) {
            return;
          }
          pointerBase := o2 + 10;
          if LiesAt(b, o2 + 10, OrderMark(Intel)) {
            order := Intel;
          } else if LiesAt(b, o2 + 10, OrderMark(Motorola)) {
            order := Motorola;
          } else {
            return;
          }
          var skip := GetLong(b, o2 + 14, order);
          if CheckOverflow(o2 + 14, |b|, skip) {
            return;
          }
          at := o2 + 10 + skip;
        case NikonV0 =>
          order := Motorola;
        case _ =>
          return;
      }
      go := !CheckOverflow(at, |b|, 2);
    }

    /** Pentax and Casio: the variant is told by the name, if there is one. */
    method LocatePentaxNote(b: bytes) returns (go: bool, at: nat, base: int)
      requires family.PentaxF?
      modifies this`order, this`version
      ensures Locate(old(Value()), b) == if go then Go(Value(), at, base, 6) else Stop(Value())
    {
      hide LiesAt;
      at, base := 6 + offset, 0;
      if CheckOverflow(at, |b|, 8) {
        return false, at, base;
      }
      go := true;
      if LiesAt(b, at, AOC) {
        if LiesAt(b, at + 4, OrderMark(Intel)) {
          version, order := PentaxV3, Intel;
        } else if LiesAt(b, at + 4, OrderMark(Motorola)) {
          version, order := PentaxV3, Motorola;
        } else {
          version := PentaxV2;
        }
        at, base := at + 6, PENTAX2_TAG_BASE;
      } else if LiesAt(b, at, QVC) {
        version, at, base := CasioV2, at + 6, PENTAX2_TAG_BASE;
      } else {
        version := PentaxV1;
      }
    }

    method LocateNote(b: bytes) returns (go: bool, at: nat, base: int, pointerBase: nat)
      modifies this`order, this`version
      ensures Locate(old(Value()), b) == if go then Go(Value(), at, base, pointerBase) else Stop(Value())
    {
      hide Locate;
      base, pointerBase := 0, 6;
      match family {
        case CanonF =>
          go, at := LocateCanonNote(b);
        case FujiF =>
          go, at := LocateFujiNote(b);
          pointerBase := 6 + offset;
        case OlympusF =>
          go, at, base, pointerBase := LocateOlympusNote(b);
        case PentaxF =>
          go, at, base := LocatePentaxNote(b);
      }
    }

    /** One turn of a load loop. */
    method ParseEntry(b: bytes, o: nat, base: int, pointerBase: nat) returns (p: Parsed)
      ensures p == ParseOne(family, order, b, o, base, pointerBase)
    {
      hide GetShort, GetLong;
      if CheckOverflow(o, |b|, 12) {
        return Abort;
      }
      var format, components := GetShort(b, o + 2, order), GetLong(b, o + 4, order);
      var e := NoteEntry(GetShort(b, o, order) + base, format, components, order, []);
      CheckMulOverflowIsExact(FormatSize(format), components, |b|);
      ValueBytesIsProduct(format, components);
      if CheckMulOverflow(FormatSize(format), components, |b|) {
        return if family.PentaxF? then Abort else Skip;
      }
      var s := FormatSize(format) * components;
      if s == 0 {
        return if family.CanonF? then Skip else Keep(e);
      }
      var dataofs := o + 8;
      if s > 4 {
        dataofs := GetLong(b, o + 8, order) + pointerBase;
        if !family.OlympusF? {
          dataofs := dataofs % U32;
        }
      }
      if CheckOverflow(dataofs, |b|, s) {
        return Skip;
      }
      p := Keep(e.(data := b[dataofs..dataofs + s]));
    }

    /** Fills the entries from the `c` records at `o`; a Canon note is cut off where its values become too many. */
    method LoadEntries(b: bytes, o: nat, c: nat, base: int, pointerBase: nat)
      modifies this`entries
      ensures entries == Collect(family, ParseAll(family, order, b, o, c, base, pointerBase), 0)
    {
      hide ParseOne, CountValues, Collect;
      entries := [];
      ghost var ps := ParseAll(family, order, b, o, c, base, pointerBase);
      var failsafe: nat := 0;
      assert ps[0..] == ps && [] + Collect(family, ps, 0) == Collect(family, ps, 0);
      for i := 0 to c
        invariant !family.CanonF? ==> failsafe == 0
        invariant Collect(family, ps, 0) == entries + Collect(family, ps[i..], failsafe)
      {
        var p := ParseEntry(b, o + 12 * i, base, pointerBase);
        CollectStep(family, ps, i, failsafe);
        match p {
          case Abort =>
            return;
          case Skip =>
          case Keep(e) =>
            if family.CanonF? {
              failsafe := failsafe + CountValues(e);
              if failsafe > FAILSAFE_SIZE_MAX {
                return;
              }
            }
            ghost var rest := Collect(family, ps[i + 1..], failsafe);
            assert entries + ([e] + rest) == entries + [e] + rest;
            entries := entries + [e];
        }
      }
      assert ps[c..] == [];
      CollectEnd(family, failsafe);
    }

    /** Reads the note at the offset it has been told. */
    method Load(b: bytes)
      modifies this`order, this`version, this`entries
      ensures Value() == MakerNote.Load(old(Value()), b)
    {
      hide Locate, Collect, ParseAll, GetShort;
      if b == [] {
        return;
      }
      var go, at, base, pointerBase := LocateNote(b);
      if !go {
        return;
      }
      var c := GetShort(b, at, order);
      if c > Limit(family) {
        return;
      }
      LoadEntries(b, at + 2, c, base, pointerBase);
    }
  }

  lemma {:induction false} CollectStep(f: Family, ps: seq<Parsed>, i: nat, total: nat)
    requires i < |ps|
    ensures Collect(f, ps[|ps|..], total) == []
    ensures Collect(f, ps[i..], total) ==
      match ps[i] {
        case Abort => []
        case Skip => Collect(f, ps[i + 1..], total)
        case Keep(e) =>
          var total' := if f.CanonF? then total + CountValues(e) else total;
          if total' > FAILSAFE_SIZE_MAX then [] else [e] + Collect(f, ps[i + 1..], total')
      }
  {
    assert ps[i..][1..] == ps[i + 1..];
  }

  lemma {:induction false} CollectEnd(f: Family, total: nat)
    ensures Collect(f, [], total) == []
  {
  }

  lemma {:induction false} StartGlue(p: bytes, z: bytes, f: bytes, items: seq<Item>, slots: seq<Slot>,
                                     order: ByteOrder, padded: bool)
    ensures p + z + f == p + Records(items, 0, order) + z + f + Values(slots, 0, padded)
    ensures |Values(slots, 0, padded)| == 0
  {
  }

  lemma {:induction false} TurnGlue(p: bytes, r: bytes, rec: bytes, z: bytes, f: bytes, v: bytes, out: bytes)
    ensures (p + r) + rec + ((z + f + v) + out) == p + (r + rec) + z + f + (v + out)
  {
  }

  lemma {:induction false} EndGlue(p: bytes, r: bytes, f: bytes, v: bytes)
    ensures p + r + Zeros(0) + f + v == p + r + f + v
  {
  }
}
