/** Notes to the byte: headers, sizes and pointers of every variant, and exactly what a load makes of each record. */
module MakerNoteBytes {
  import opened Bytes
  import opened Tiff
  import opened MakerNote
  import opened MakerNoteRoundTrip

  // ---- Headers ----

  lemma {:induction false} StoredIntel()
    ensures EncShort(0, Intel) == [0, 0] && EncShort(1, Intel) == [1, 0] && EncShort(3, Intel) == [3, 0]
    ensures EncShort(0x2a, Intel) == [0x2a, 0]
    ensures EncLong(8, Intel) == [8, 0, 0, 0] && EncLong(12, Intel) == [12, 0, 0, 0]
  {
    ShortDigitsMeetSpec(0, Intel);
    ShortDigitsMeetSpec(1, Intel);
    ShortDigitsMeetSpec(3, Intel);
    ShortDigitsMeetSpec(0x2a, Intel);
    LongDigitsMeetSpec(8, Intel);
    LongDigitsMeetSpec(12, Intel);
  }

  lemma {:induction false} StoredMotorola()
    ensures EncShort(0, Motorola) == [0, 0] && EncShort(1, Motorola) == [0, 1] && EncShort(3, Motorola) == [0, 3]
    ensures EncShort(0x2a, Motorola) == [0, 0x2a] && EncLong(8, Motorola) == [0, 0, 0, 8]
  {
    ShortDigitsMeetSpec(0, Motorola);
    ShortDigitsMeetSpec(1, Motorola);
    ShortDigitsMeetSpec(3, Motorola);
    ShortDigitsMeetSpec(0x2a, Motorola);
    LongDigitsMeetSpec(8, Motorola);
  }

  /** The headers in Intel order: "FUJIFILM", "OLYMP", "SANYO", "EPSON", "OLYMPUS", "Nikon", "AOC" and "QVC". */
  lemma {:induction false} IntelHeaders()
    ensures Header(CanonV, Intel) == [] && Header(PentaxV1, Intel) == []
    ensures Header(FujiV, Intel) == [0x46, 0x55, 0x4a, 0x49, 0x46, 0x49, 0x4c, 0x4d, 12, 0, 0, 0]
    ensures Header(OlympusV1, Intel) == [0x4f, 0x4c, 0x59, 0x4d, 0x50, 0, 1, 0]
    ensures Header(SanyoV1, Intel) == [0x53, 0x41, 0x4e, 0x59, 0x4f, 0, 1, 0]
    ensures Header(EpsonV1, Intel) == [0x45, 0x50, 0x53, 0x4f, 0x4e, 0, 1, 0]
    ensures Header(OlympusV2, Intel) == [0x4f, 0x4c, 0x59, 0x4d, 0x50, 0x55, 0x53, 0, 0x49, 0x49, 3, 0]
    ensures Header(NikonV1, Intel) == [0x4e, 0x69, 0x6b, 0x6f, 0x6e, 0, 1, 0]
    ensures Header(NikonV2, Intel) == [0x4e, 0x69, 0x6b, 0x6f, 0x6e, 0, 2, 0, 0, 0, 0x49, 0x49, 0x2a, 0, 8, 0, 0, 0]
    ensures Header(PentaxV2, Intel) == [0x41, 0x4f, 0x43, 0, 0, 0]
    ensures Header(PentaxV3, Intel) == [0x41, 0x4f, 0x43, 0, 0x49, 0x49]
    ensures Header(CasioV2, Intel) == [0x51, 0x56, 0x43, 0, 0, 0]
  {
    StoredIntel();
  }

  /** The headers in Motorola order, as far as they differ. */
  lemma {:induction false} MotorolaHeaders()
    ensures Header(OlympusV1, Motorola) == [0x4f, 0x4c, 0x59, 0x4d, 0x50, 0, 0, 1]
    ensures Header(SanyoV1, Motorola) == [0x53, 0x41, 0x4e, 0x59, 0x4f, 0, 0, 1]
    ensures Header(EpsonV1, Motorola) == [0x45, 0x50, 0x53, 0x4f, 0x4e, 0, 0, 1]
    ensures Header(OlympusV2, Motorola) == [0x4f, 0x4c, 0x59, 0x4d, 0x50, 0x55, 0x53, 0, 0x4d, 0x4d, 0, 3]
    ensures Header(NikonV1, Motorola) == Header(NikonV1, Intel)
    ensures Header(NikonV2, Motorola) == [0x4e, 0x69, 0x6b, 0x6f, 0x6e, 0, 2, 0, 0, 0, 0x4d, 0x4d, 0, 0x2a, 0, 0, 0, 8]
    ensures Header(PentaxV2, Motorola) == Header(PentaxV2, Intel) && Header(CasioV2, Motorola) == Header(CasioV2, Intel)
    ensures Header(PentaxV3, Motorola) == [0x41, 0x4f, 0x43, 0, 0x4d, 0x4d]
  {
    StoredIntel();
    StoredMotorola();
  }

  // ---- Sizes ----

  /** The bytes of a note with nothing in it: header, count, and what follows the records. */
  function Frame(v: Version): nat
  {
    match v
    case CanonV | PentaxV1 => 2 + 4
    case FujiV => 12 + 2 + 4
    case OlympusV1 | SanyoV1 | EpsonV1 => 8 + 2
    case OlympusV2 => 12 + 2 + 2
    case NikonV1 => 8 + 2 + 4
    case NikonV0 | NikonV2 => 18 + 2 + 4
    case PentaxV2 | PentaxV3 | CasioV2 => 6 + 2 + 4
    case Unrecognized => 0
  }

  /** The bytes of a value outside its record; only Canon and Fuji keep to even positions. */
  function Outside(e: NoteEntry, even: bool): nat
  {
    var s := FormatSize(e.format) * e.components;
    if s <= 4 || s > 65536 then 0 else if even then s + s % 2 else s
  }

  function TotalOutside(es: seq<NoteEntry>, n: nat, even: bool): nat
    requires n <= |es|
  {
    if n == 0 then 0 else TotalOutside(es, n - 1, even) + Outside(es[n - 1], even)
  }

  lemma {:induction false} ValuesTotal(es: seq<NoteEntry>, base: int, n: nat, even: bool)
    requires n <= |es|
    ensures |Values(Slots(es, base), n, even)| == TotalOutside(es, n, even)
  {
    hide Payload, Outside;
    if n > 0 {
      ValuesTotal(es, base, n - 1, even);
      OutsideIs(es[n - 1], even);
    }
  }

  lemma {:induction false} OutsideIs(e: NoteEntry, even: bool)
    ensures |OutOfLine(Payload(e), even)| == Outside(e, even)
  {
    hide Payload;
    ValueBytesIsProduct(e.format, e.components);
  }

  /** The length of a saved note. */
  lemma {:induction false} NoteLength(n: Note)
    requires !n.version.Unrecognized?
    ensures |Image(n)| == Frame(n.version) + 12 * |n.entries|
                          + TotalOutside(n.entries, |n.entries|, n.version.CanonV? || n.version.FujiV?)
  {
    hide Values, Records, TotalOutside, Payload, Slots;
    ValuesTotal(n.entries, TagBase(n.version), |n.entries|, n.version.CanonV? || n.version.FujiV?);
  }

  /** A handler that has not recognised a note hands over no bytes, only the size that its records would take. */
  lemma {:induction false} UnrecognizedSaved(n: Note)
    requires n.version.Unrecognized?
    ensures Saved(n) == ([], 12 * |n.entries| + if n.family.PentaxF? then 12 else 10)
  {
  }

  // ---- Records ----

  /** What is subtracted from the tags of a variant. */
  function TagShift(v: Version): int
  {
    match v
    case NikonV1 => 0x8000
    case PentaxV2 | PentaxV3 | CasioV2 => 0x4000
    case _ => 0
  }

  /** What is added to a place in the note to get the pointer that is stored for it. */
  function PointerShift(n: Note): int
  {
    match n.version
    case FujiV | OlympusV2 => 0
    case NikonV0 | NikonV2 => -10
    case _ => n.offset
  }

  /** Read from the saved note: the fields of record `k`, and its value in it or where its pointer leads. */
  lemma {:induction false} RecordSaved(n: Note, k: nat) returns (at: nat)
    requires !n.version.Unrecognized? && k < |n.entries|
    ensures var b, e, o := Image(n), n.entries[k], |Header(n.version, n.order)| + 2 + 12 * k;
      && o + 12 <= |b|
      && GetShort(b, o, n.order) == (e.tag - TagShift(n.version)) % U16
      && GetShort(b, o + 2, n.order) == e.format % U16 && GetLong(b, o + 4, n.order) == e.components % U32
      && LiesAt(b, at, Payload(e))
      && (if |Payload(e)| <= 4 then at == o + 8 else GetLong(b, o + 8, n.order) == (at + PointerShift(n)) % U32)
  {
    hide Image, Header, Record, Payload, LiesAt, Values, ValueArea;
    var b, e, h := Image(n), n.entries[k], |Header(n.version, n.order)|;
    var sh := ShapeOf(n.version, n.order, n.offset);
    var slots := Slots(n.entries, TagBase(n.version));
    ImageInItself(n);
    SlotInFile(slots, sh, n.order, b, 0, k);
    var i := Item(slots[k], PtrAt(slots, sh, k));
    RecordFields(i, n.order, b, h + 2 + 12 * k);
    at := if |Payload(e)| <= 4 then h + 2 + 12 * k + 8 else PtrAt(slots, sh, k) - sh.origin;
  }

  lemma {:induction false} ImageInItself(n: Note)
    requires !n.version.Unrecognized?
    ensures LiesAt(Image(n), 0,
      BlocksOf(Slots(n.entries, TagBase(n.version)), ShapeOf(n.version, n.order, n.offset), n.order))
  {
    hide LiesAt, BlocksOf;
    LiesInItself(Image(n));
  }

  // ---- What a load makes of a record ----

  /** One record: when it is stored with data, stored without, passed over, and when it ends the load. */
  lemma {:induction false} ParseExactly(f: Family, order: ByteOrder, b: bytes, o: nat, base: int, pointerBase: nat)
    ensures o + 12 > |b| ==> ParseOne(f, order, b, o, base, pointerBase) == Abort
    ensures o + 12 <= |b| ==>
      var format, components := GetShort(b, o + 2, order), GetLong(b, o + 4, order);
      var size, p := FormatSize(format) * components, ParseOne(f, order, b, o, base, pointerBase);
      var bare := NoteEntry(GetShort(b, o, order) + base, format, components, order, []);
      var to := GetLong(b, o + 8, order) + pointerBase;
      var at := if size <= 4 then o + 8 else if f.OlympusF? then to else to % U32;
      && (size > |b| ==> p == if f.PentaxF? then Abort else Skip)
      && (size == 0 ==> p == if f.CanonF? then Skip else Keep(bare))
      && (0 < size <= |b| && at + size > |b| ==> p == Skip)
      && (0 < size <= |b| && at + size <= |b| ==> p.Keep? && p.e == bare.(data := p.e.data) && |p.e.data| == size
                                                   && LiesAt(b, at, p.e.data))
  {
    hide GetShort, GetLong, FormatSize;
    if o + 12 <= |b| {
      var format, components := GetShort(b, o + 2, order), GetLong(b, o + 4, order);
      ValueBytesIsProduct(format, components);
    }
  }

  /** The entries of the records that are stored. */
  function Kept(ps: seq<Parsed>): seq<NoteEntry>
  {
    if ps == [] then []
    else if ps[0].Keep? then [ps[0].e] + Kept(ps[1..])
    else Kept(ps[1..])
  }

  /**
   The load loop stores, in order, what the records before the first that ends the load give. Canon's stops before the
   first entry that would bring the number of values over a million.
   */
  lemma {:induction false} CollectExactly(f: Family, ps: seq<Parsed>, n: nat, total: nat)
    requires n <= |ps| && (forall k :: 0 <= k < n ==> !ps[k].Abort?) && (n < |ps| ==> ps[n].Abort?)
    requires total <= 1_000_000
    ensures var es, all := Collect(f, ps, total), Kept(ps[..n]);
      && |es| <= |all| && es == all[..|es|]
      && (!f.CanonF? ==> es == all)
      && (f.CanonF? ==> total + SumCounts(es) <= 1_000_000)
      && (f.CanonF? && |es| < |all| ==> total + SumCounts(es) + CountValues(all[|es|]) > 1_000_000)
    decreases |ps|
  {
    hide CountValues;
    if n > 0 {
      var rest := ps[1..];
      assert ps[..n][1..] == rest[..n - 1];
      match ps[0]
      case Skip =>
        CollectExactly(f, rest, n - 1, total);
      case Keep(e) =>
        var total' := if f.CanonF? then total + CountValues(e) else total;
        if total' <= 1_000_000 {
          CollectExactly(f, rest, n - 1, total');
          KeepsOne(f, ps, e, rest, total, total');
        }
    }
  }

  lemma {:induction false} KeepsOne(f: Family, ps: seq<Parsed>, e: NoteEntry, rest: seq<Parsed>, total: nat,
                                    total': nat)
    requires ps != [] && ps[0] == Keep(e) && rest == ps[1..]
    requires total' == if f.CanonF? then total + CountValues(e) else total
    requires total' <= 1_000_000
    ensures Collect(f, ps, total) == [e] + Collect(f, rest, total')
    ensures SumCounts([e] + Collect(f, rest, total')) == CountValues(e) + SumCounts(Collect(f, rest, total'))
  {
    hide CountValues;
    assert ([e] + Collect(f, rest, total'))[1..] == Collect(f, rest, total');
  }

  /** A directory of more entries than a camera writes is not read at all. */
  lemma {:induction false} TooManyEntries(n: Note, b: bytes)
    requires b != [] && Locate(n, b).Go?
    requires GetShort(b, Locate(n, b).countAt, Locate(n, b).note.order)
          > (match n.family case CanonF => 250 case FujiF => 150 case OlympusF => 300 case PentaxF => 200)
    ensures Load(n, b).entries == n.entries
  {
    hide GetShort;
  }

  // ---- Canon's values ----

  /**
   How many values of an entry are listed: those of two tags one by one, those of four settings tables as announced.
   */
  lemma {:induction false} CountExactly(e: NoteEntry)
    ensures e.tag == 2 || e.tag == 5 ==> CountValues(e) == e.components
    ensures e.tag in {1, 4, 0xf, 0xa0} && (e.format != 3 || |e.data| < 2) ==> CountValues(e) == 0
    ensures e.tag in {1, 4, 0xf, 0xa0} && e.format == 3 && |e.data| >= 2 ==>
      var announced := GetShort(e.data, 0, e.order);
      && 2 * CountValues(e) + 2 <= |e.data|
      && (announced + 2 <= |e.data| ==> CountValues(e) == announced / 2)
      && (announced + 2 > |e.data| ==> CountValues(e) == (|e.data| - 2) / 2)
    ensures e.tag !in {1, 2, 4, 5, 0xf, 0xa0} ==> CountValues(e) == 1
  {
    hide GetShort;
  }
}
