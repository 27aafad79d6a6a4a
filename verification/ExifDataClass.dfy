/** The EXIF object itself: its save and load routines, step by step, against their specifications. */
module ExifDataObject {
  import opened Bytes
  import opened Tiff
  import opened TiffWriter
  import opened ExifTypes
  import opened ExifLayout
  import opened ExifEffects
  import opened ExifSorted
  import opened RecordSort
  import ExifLoad
  import MakerNote
  import MakerNoteObject
  import MakerNoteOrder
  import opened ByteOrderSwitch
  import TagTable

  // ---- What the written bytes depend on ----

  /** The value of the entry is fully written: nothing of it is left to what the buffer held before. */
  predicate Determined(e: Entry)
  {
    e.components <= MAX_COMPONENTS && (e.data == [] || ValueBytes(e.format, e.components) <= |e.data|)
  }

  ghost predicate AllDetermined(es: seq<Entry>)
  {
    forall k :: 0 <= k < |es| ==> Determined(es[k])
  }

  /** Every byte of the directory is determined: its values are, and no two records compare equal. */
  ghost predicate DirDetermined(m: Model, i: Ifd)
  {
    && AllDetermined(Effs(m, m.contents.Of(i), |m.contents.Of(i)|, ValueStart(m, i)))
    && Sortable(DirItems(m, i))
  }

  /** Every byte of the file is determined by the model. */
  ghost predicate FileDetermined(m: Model)
  {
    DirDetermined(m, Ifd0) && DirDetermined(m, ExifIfd) && DirDetermined(m, InteropIfd) && DirDetermined(m, GpsIfd)
      && DirDetermined(m, Ifd1)
  }

  // ---- Writing one entry ----

  /** The value memcpy and memset put over `room` bytes that hold `junk`. */
  function Copied(e: Entry, s: nat, junk: bytes): (v: bytes)
    requires |junk| == s
    ensures |v| == s
  {
    if e.data == [] then Zeros(s)
    else if s <= |e.data| then e.data[..s]
    else e.data + junk[|e.data|..]
  }

  lemma {:induction false} CopiedDetermined(e: Entry, junk: bytes)
    requires Determined(e) && |junk| == ValueBytes(e.format, e.components)
    ensures Copied(e, |junk|, junk) == Payload(e)
  {
  }

  lemma {:induction false} PayloadLength(e: Entry)
    ensures |Payload(e)| == if e.components > MAX_COMPONENTS then 0 else ValueBytes(e.format, e.components)
  {
  }

  /** Puts a value into the `s` bytes between `h` and the padding `pad`. */
  method PutCopied(t: bytes, at: nat, e: Entry, s: nat, ghost h: bytes, ghost junk: bytes, ghost pad: bytes)
    returns (r: bytes)
    requires t == h + junk + pad && |h| == at && |junk| == s
    ensures r == h + Copied(e, s, junk) + pad
  {
    hide Put, Copied;
    assert t[at..at + s] == junk;
    var value := Copied(e, s, t[at..at + s]);
    PutAt(t, h, junk, pad, value);
    r := Put(t, at, value);
  }

  /** Makes room for `s` bytes and, if need be, a zero byte, and writes their position at `at`. */
  method Extend(buf: bytes, at: nat, s: nat, order: ByteOrder) returns (t: bytes, ghost junk: bytes)
    requires at + 4 <= |buf| && 6 <= |buf|
    ensures |junk| == s
    ensures t == (buf[..at] + EncLong(|buf| - 6, order) + buf[at + 4..]) + junk + (if s % 2 == 1 then [0] else [])
  {
    hide EncLong, Put;
    var ts := |buf| + s;
    if s % 2 == 1 {
      ts := ts + 1;
    }
    t := Realloc(buf, ts);
    ghost var a, f, c := buf[..at], buf[at..at + 4], buf[at + 4..];
    ghost var pad := t[|buf| + s..];
    junk := t[|buf|..|buf| + s];
    assert t == a + f + (c + junk + pad);
    t := PutLong(t, at, |buf| - 6, order, a, f, c + junk + pad);
    ghost var h := a + EncLong(|buf| - 6, order) + c;
    assert t == h + junk + pad;
    if s % 2 == 1 {
      assert t == (h + junk) + pad + [];
      PutAt(t, h + junk, pad, [], [0]);
      t := Put(t, ts - 1, [0]);
    }
  }

  /** A value of more than four bytes: at the end of the buffer, with a zero byte to make the length even. */
  method PutOutside(buf: bytes, at: nat, e: Entry, order: ByteOrder) returns (r: bytes)
    requires at + 4 <= |buf| && 6 <= |buf| && e.components <= MAX_COMPONENTS && ValueBytes(e.format, e.components) > 4
    ensures |r| == |buf| + |OutOfLine(Payload(e), true)|
    ensures Determined(e) ==> r == buf[..at] + EncLong(|buf| - 6, order) + (buf[at + 4..] + OutOfLine(Payload(e), true))
  {
    hide EncLong, Put, ValueBytes, Payload, Copied, Determined;
    PayloadLength(e);
    var s := ValueBytes(e.format, e.components);
    var t, junk := Extend(buf, at, s, order);
    ghost var h := buf[..at] + EncLong(|buf| - 6, order) + buf[at + 4..];
    r := PutCopied(t, |buf|, e, s, h, junk, if s % 2 == 1 then [0] else []);
    if Determined(e) {
      CopiedDetermined(e, junk);
    }
  }

  /** Zeroes the bytes `f` between `h` and `c`. */
  method PutZeroFill(t: bytes, at: nat, n: nat, ghost h: bytes, ghost f: bytes, ghost c: bytes) returns (r: bytes)
    requires t == h + f + c && |h| == at && |f| == n
    ensures r == h + Zeros(n) + c
  {
    hide Put;
    PutAt(t, h, f, c, Zeros(n));
    r := Put(t, at, Zeros(n));
  }

  /** A value of at most four bytes: in the record, filled up with zeros. */
  method PutInside(buf: bytes, at: nat, e: Entry, ghost order: ByteOrder, ghost ptr: int) returns (r: bytes)
    requires at + 4 <= |buf| && e.components <= MAX_COMPONENTS && ValueBytes(e.format, e.components) <= 4
    ensures |r| == |buf| + |OutOfLine(Payload(e), true)|
    ensures Determined(e) ==>
      r == buf[..at] + ValueField(Payload(e), ptr, order) + (buf[at + 4..] + OutOfLine(Payload(e), true))
  {
    hide Zeros, Put, ValueBytes, Payload, Copied, Determined;
    PayloadLength(e);
    var s := ValueBytes(e.format, e.components);
    ghost var a, junk, f, c := buf[..at], buf[at..at + s], buf[at + s..at + 4], buf[at + 4..];
    ghost var value := Copied(e, s, junk);
    assert buf == a + junk + (f + c);
    r := PutCopied(buf, at, e, s, a, junk, f + c);
    assert r == (a + value) + f + c;
    r := PutZeroFill(r, at + s, 4 - s, a + value, f, c);
    if Determined(e) {
      CopiedDetermined(e, junk);
      InsideGlue(a, value, Zeros(4 - s), c);
    }
  }

  lemma {:induction false} InsideGlue(a: bytes, value: bytes, z: bytes, c: bytes)
    ensures (a + value) + z + c == a + (value + z) + (c + [])
  {
  }

  /** The value of an entry, wherever it goes; too many components and nothing is written. */
  method PutValue(buf: bytes, at: nat, e: Entry, order: ByteOrder) returns (r: bytes)
    requires at + 4 <= |buf| && 6 <= |buf|
    ensures |r| == |buf| + |OutOfLine(Payload(e), true)|
    ensures Determined(e) ==>
      r == buf[..at] + ValueField(Payload(e), |buf| - 6, order) + (buf[at + 4..] + OutOfLine(Payload(e), true))
  {
    hide Zeros, EncLong, Put, ValueBytes, Payload;
    PayloadLength(e);
    if e.components > MAX_COMPONENTS {
      return buf;
    }
    if ValueBytes(e.format, e.components) > 4 {
      r := PutOutside(buf, at, e, order);
    } else {
      r := PutInside(buf, at, e, order, |buf| - 6);
    }
  }

  lemma {:induction false} EntryGlue(buf: bytes, at: nat, h: bytes, b1: bytes, v: bytes, out: bytes)
    requires at + 12 <= |buf| && |h| == 8 && b1 == buf[..at] + h + buf[at + 8..] && |v| == 4
    ensures |b1| == |buf| && b1[..at + 8] + v + (b1[at + 12..] + out) == buf[..at] + (h + v) + (buf[at + 12..] + out)
  {
    assert b1[..at + 8] == buf[..at] + h;
    assert b1[at + 12..] == buf[at + 12..];
  }

  /** The record of `e`, holding the effective entry `eff`, at `at`. */
  method PutEntry(buf: bytes, at: nat, e: Entry, eff: Entry, order: ByteOrder) returns (r: bytes)
    requires at + 12 <= |buf| && 6 <= |buf|
    ensures |r| == |buf| + |OutOfLine(Payload(eff), true)|
    ensures Determined(eff) ==>
      r == buf[..at] + Record(Item(SlotOf(e, eff), |buf| - 6), order) + (buf[at + 12..] + OutOfLine(Payload(eff), true))
  {
    hide Zeros, Put, Payload, Record, Head, ValueField, OutOfLine, Determined;
    RecordIs(Item(SlotOf(e, eff), |buf| - 6), order);
    assert buf == buf[..at] + buf[at..at + 8] + buf[at + 8..];
    var b1 := PutHead(buf, at, e.tag, e.format, eff.components, order, buf[..at], buf[at..at + 8], buf[at + 8..]);
    ghost var h := Head(e.tag, e.format, eff.components, order);
    EntryGlue(buf, at, h, b1, ValueField(Payload(eff), |buf| - 6, order), OutOfLine(Payload(eff), true));
    r := PutValue(b1, at + 8, eff, order);
  }

  /** A record that points to `v`. */
  method PutPointer(buf: bytes, at: nat, tag: int, v: int, order: ByteOrder) returns (r: bytes)
    requires at + 12 <= |buf|
    ensures r == buf[..at] + Record(PointerItem(tag, v, order), order) + buf[at + 12..]
  {
    hide Put, Record, Head, EncLong;
    RecordIs(PointerItem(tag, v, order), order);
    ghost var a, c := buf[..at], buf[at + 12..];
    ghost var h := Head(tag, FMT_LONG, 1, order);
    assert buf == a + buf[at..at + 8] + (buf[at + 8..at + 12] + c);
    r := PutHead(buf, at, tag, FMT_LONG, 1, order, a, buf[at..at + 8], buf[at + 8..at + 12] + c);
    assert r == (a + h) + buf[at + 8..at + 12] + c;
    r := PutLong(r, at + 8, v, order, a + h, buf[at + 8..at + 12], c);
    assert EncLong(v, order) + Zeros(0) == EncLong(v, order);
    assert r == a + (h + EncLong(v, order)) + c;
  }

  /** Records that sort in only one way. */
  predicate Sortable(items: seq<Item>)
  {
    DistinctItems(items) && forall k :: 0 <= k < |items| ==> 0 <= items[k].slot.tag < U16
  }

  /** Sorts the `n` records at `at`. */
  method SortDirectory(buf: bytes, at: nat, n: nat, order: ByteOrder, ghost items: seq<Item>) returns (r: bytes)
    requires at + 12 * n <= |buf| && |items| == n
    ensures |r| == |buf|
    ensures buf[at..at + 12 * n] == Records(items, n, order) && Sortable(items) ==>
      r == buf[..at] + Records(Sorted(items), n, order) + buf[at + 12 * n..]
  {
    hide Record, Records, Sorted, Chunks, KeysAscend, Key, Put;
    var recs := buf[at..at + 12 * n];
    var sorted := QSort(recs, n, order);
    assert buf == buf[..at] + recs + buf[at + 12 * n..];
    PutAt(buf, buf[..at], recs, buf[at + 12 * n..], sorted);
    r := Put(buf, at, sorted);
    if recs == Records(items, n, order) && Sortable(items) {
      SortedRecords(items, sorted, order);
    }
  }

  // ---- The entries of a directory ----

  /** What the turn for entry `j` is about. */
  lemma {:induction false} TurnFacts(m: Model, es: seq<Entry>, start: nat, j: nat, effs: seq<Entry>, slots: seq<Slot>,
                                     items: seq<Item>)
    requires j < |es| && effs == Effs(m, es, |es|, start) && slots == SlotsOf(es, effs)
    requires items == Items(slots, start, true)
    ensures items[j] == Item(SlotOf(es[j], effs[j]), start + |Values(slots, j, true)|)
    ensures effs[j] == Effective(m, es[j], start + |Values(slots, j, true)|)
    ensures Records(items, j + 1, m.order) == Records(items, j, m.order) + Record(items[j], m.order)
    ensures Values(slots, j + 1, true) == Values(slots, j, true) + OutOfLine(Payload(effs[j]), true)
  {
    hide Record, Records, Values, OutOfLine, Payload, Effective, Effs;
    EffectiveAt(m, es, start, j);
    RecordsNext(items, j, m.order);
    ValuesNext(slots, j, true);
  }

  /** `r` is `buf` with the first `j` records written from `o` on and their values at the end. */
  ghost predicate Saving(buf: bytes, r: bytes, o: nat, items: seq<Item>, slots: seq<Slot>, j: nat, order: ByteOrder)
    requires j <= |items| && j <= |slots| && o + 12 * j <= |buf|
  {
    r == buf[..o] + Records(items, j, order) + buf[o + 12 * j..] + Values(slots, j, true)
  }

  /** The buffer after `i` entries: records from `o` on, values at the end. */
  lemma {:induction false} TurnGlue(buf: bytes, o: nat, rs: bytes, rec: bytes, v: bytes, out: bytes, r: bytes)
    requires |rec| == 12 && o + |rs| + 12 <= |buf|
    requires r == buf[..o] + rs + buf[o + |rs|..] + v
    ensures |r| == |buf| + |v|
    ensures r[..o + |rs|] + rec + (r[o + |rs| + 12..] + out) == buf[..o] + (rs + rec) + buf[o + |rs| + 12..] + (v + out)
  {
    assert r[..o + |rs|] == buf[..o] + rs;
    assert r[o + |rs| + 12..] == buf[o + |rs| + 12..] + v;
  }

  lemma {:induction false} StartGlue(buf: bytes, o: nat, items: seq<Item>, slots: seq<Slot>, order: ByteOrder)
    requires o <= |buf|
    ensures buf == buf[..o] + Records(items, 0, order) + buf[o..] + Values(slots, 0, true)
    ensures |Values(slots, 0, true)| == 0
  {
  }

  /** The directory after `j` entries have been saved. */
  lemma {:induction false} StoreGlue(was: Contents, i: Ifd, effs: seq<Entry>, es: seq<Entry>, j: nat)
    requires |effs| == |es| && j < |es|
    ensures var c := was.With(i, effs[..j] + es[j..]);
      && |c.Of(i)| == |es| && c.Of(i)[j] == es[j]
      && c.With(i, c.Of(i)[j := effs[j]]) == was.With(i, effs[..j + 1] + es[j + 1..])
  {
    assert (effs[..j] + es[j..])[j := effs[j]] == effs[..j + 1] + es[j + 1..];
  }

  lemma {:induction false} StoreStart(was: Contents, i: Ifd, effs: seq<Entry>)
    requires |effs| == |was.Of(i)|
    ensures was == was.With(i, effs[..0] + was.Of(i)[0..])
    ensures effs[..|effs|] + was.Of(i)[|effs|..] == effs
  {
    assert effs[..0] + was.Of(i)[0..] == was.Of(i);
  }

  // ---- A directory and what hangs on it ----

  /** As many entries in each directory. */
  predicate SameShape(a: Contents, b: Contents)
  {
    |a.ifd0| == |b.ifd0| && |a.ifd1| == |b.ifd1| && |a.exif| == |b.exif| && |a.gps| == |b.gps|
      && |a.interop| == |b.interop|
  }

  lemma {:induction false} SameCount(a: Contents, b: Contents, thumb: bytes, i: Ifd)
    requires SameShape(a, b)
    ensures Count(a, thumb, i) == Count(b, thumb, i) && Present(a, thumb, i) == Present(b, thumb, i)
    ensures |a.Of(i)| == |b.Of(i)|
    ensures Extras(a, thumb, i) == Extras(b, thumb, i)
  {
  }

  lemma {:induction false} WithShape(a: Contents, b: Contents, i: Ifd, es: seq<Entry>)
    requires SameShape(a, b) && |es| == |b.Of(i)|
    ensures SameShape(a.With(i, es), b)
  {
  }

  /** The records of the entries alone. */
  ghost function OwnRecords(m: Model, i: Ifd): (b: bytes)
    ensures |b| == 12 * |m.contents.Of(i)|
  {
    Records(Items(EntrySlots(m, i, ValueStart(m, i)), ValueStart(m, i), true), |m.contents.Of(i)|, m.order)
  }

  /** `r` starts with `q` and `recs`, ends with `tail`, and has `gap` bytes in between. */
  ghost predicate Building(r: bytes, q: bytes, recs: bytes, gap: nat, tail: bytes)
  {
    && |r| == |q| + |recs| + gap + |tail|
    && r[..|q| + |recs|] == q + recs
    && r[|q| + |recs| + gap..] == tail
  }

  lemma {:induction false} OwnGlue(q: bytes, t: bytes, recs: bytes, vals: bytes, n: nat, r: bytes)
    requires |q| + n <= |t| && |recs| == n && t[..|q|] == q
    requires |r| == |t| + |vals|
    ensures r == t[..|q|] + recs + t[|q| + n..] + vals ==> Building(r, q, recs, |t| - |q| - n, vals)
  {
  }

  lemma {:induction false} CountIs(m: Model, i: Ifd)
    ensures Count(m.contents, m.thumb, i) == |m.contents.Of(i)| + Extras(m.contents, m.thumb, i)
  {
  }

  /** Room for the count, `n` records and the link; the count is written. */
  method Grow(buf: bytes, n: nat, order: ByteOrder) returns (r: bytes)
    ensures |r| == |buf| + 2 + 12 * n + 4 && r[..|buf| + 2] == buf + EncShort(n, order)
  {
    hide EncShort;
    var t := Realloc(buf, |buf| + 2 + 12 * n + 4);
    assert t == buf + t[|buf|..|buf| + 2] + t[|buf| + 2..];
    r := PutShort(t, |buf|, n, order, buf, t[|buf|..|buf| + 2], t[|buf| + 2..]);
  }

  lemma {:induction false} PositionsOf(m: Model, i: Ifd)
    requires Present(m.contents, m.thumb, i)
    ensures ValueStart(m, i) == Start(m, i) + 2 + 12 * Count(m.contents, m.thumb, i) + 4
    ensures End(m, i) == ValueStart(m, i) + |EntryValues(m, i, ValueStart(m, i))|
  {
    hide EntryValues, Count, Start;
  }

  // ---- A directory with all that is saved behind it ----

  function Depth(i: Ifd): nat
  {
    match i case Ifd0 => 2 case ExifIfd => 1 case _ => 0
  }

  /** What follows the values of a directory, up to the next one on its level. */
  ghost function SubTrees(m: Model, i: Ifd): bytes
    decreases Depth(i), 0
  {
    match i
    case Ifd0 => Tree(m, ExifIfd) + Tree(m, GpsIfd)
    case ExifIfd => Tree(m, InteropIfd)
    case Ifd1 => m.thumb
    case _ => []
  }

  /** All that saving a directory adds to the file. */
  ghost function Tree(m: Model, i: Ifd): bytes
    decreases Depth(i), 1
  {
    if !Present(m.contents, m.thumb, i) then []
    else Section(m, i) + SubTrees(m, i) + if i.Ifd0? then Tree(m, Ifd1) else []
  }

  lemma {:induction false} SmallTrees(m: Model)
    ensures Tree(m, InteropIfd) == Section(m, InteropIfd) && Tree(m, GpsIfd) == Section(m, GpsIfd)
    ensures Tree(m, ExifIfd) == Section(m, ExifIfd) + Section(m, InteropIfd)
    ensures Tree(m, Ifd1) == Section(m, Ifd1) + m.thumb
  {
    hide Section;
    AbsentSections(m);
    assert forall x: bytes :: x + [] == x && [] + x == x;
  }

  lemma {:induction false} FileGlue(h: bytes, s0: bytes, se: bytes, si: bytes, sg: bytes, s1: bytes, t: bytes)
    ensures h + s0 + se + si + sg + s1 + t == h + (s0 + ((se + si) + sg) + (s1 + t))
  {
  }

  /** The file is its header and the tree of IFD 0. */
  lemma {:induction false} FileIsTree(m: Model)
    ensures FileOf(m) == FileHeader(m.order) + Tree(m, Ifd0)
  {
    hide Section, FileHeader, Present;
    AbsentSections(m);
    SmallTrees(m);
    FileGlue(FileHeader(m.order), Section(m, Ifd0), Section(m, ExifIfd), Section(m, InteropIfd), Section(m, GpsIfd),
      Section(m, Ifd1), m.thumb);
  }

  lemma {:induction false} AbsentSections(m: Model)
    ensures forall i :: !Present(m.contents, m.thumb, i) ==> Section(m, i) == []
    ensures !Present(m.contents, m.thumb, ExifIfd) ==> !Present(m.contents, m.thumb, InteropIfd)
    ensures !Present(m.contents, m.thumb, Ifd1) ==> m.thumb == []
    ensures Present(m.contents, m.thumb, Ifd0)
  {
  }

  lemma {:induction false} SectionSize(m: Model, i: Ifd)
    ensures |Section(m, i)| == End(m, i) - Start(m, i)
  {
    hide EntryValues, Next, DirItems, Present, Sorted, Count, Records, EncShort, EncLong;
    if Present(m.contents, m.thumb, i) {
      PositionsOf(m, i);
      assert |Sorted(DirItems(m, i))| == Count(m.contents, m.thumb, i);
    }
  }

  /** The positions of the directories in terms of what is saved before them. */
  lemma {:induction false} TreePositions(m: Model)
    ensures Start(m, ExifIfd) == End(m, Ifd0)
    ensures Start(m, InteropIfd) == End(m, ExifIfd)
    ensures Start(m, InteropIfd) + |Tree(m, InteropIfd)| == Start(m, GpsIfd)
    ensures Start(m, ExifIfd) + |Tree(m, ExifIfd)| == Start(m, GpsIfd)
    ensures Start(m, GpsIfd) + |Tree(m, GpsIfd)| == Start(m, Ifd1)
  {
    hide Section, EntryValues, Count, Present, ValueStart;
    AbsentSections(m);
    SectionSize(m, ExifIfd);
    SectionSize(m, InteropIfd);
    SectionSize(m, GpsIfd);
  }

  /** The contents once a directory and all behind it are saved. */
  ghost function AfterTree(c: Contents, m: Model, i: Ifd): Contents
  {
    match i
    case Ifd0 => Contents(SavedEntries(m, Ifd0), SavedEntries(m, Ifd1), SavedEntries(m, ExifIfd),
      SavedEntries(m, GpsIfd), SavedEntries(m, InteropIfd))
    case ExifIfd => c.(exif := SavedEntries(m, ExifIfd), interop := SavedEntries(m, InteropIfd))
    case InteropIfd => c.(interop := SavedEntries(m, InteropIfd))
    case GpsIfd => c.(gps := SavedEntries(m, GpsIfd))
    case Ifd1 => c.(ifd1 := SavedEntries(m, Ifd1))
  }

  /** Nothing of a directory and what is behind it has been saved yet. */
  predicate Pristine(c: Contents, m: Model, i: Ifd)
  {
    match i
    case Ifd0 => c == m.contents
    case ExifIfd => c.exif == m.contents.exif && c.interop == m.contents.interop
    case InteropIfd => c.interop == m.contents.interop
    case GpsIfd => c.gps == m.contents.gps
    case Ifd1 => c.ifd1 == m.contents.ifd1
  }

  lemma {:induction false} AbsentTree(c: Contents, m: Model, i: Ifd)
    requires !Present(m.contents, m.thumb, i) && Pristine(c, m, i)
    ensures Tree(m, i) == [] && AfterTree(c, m, i) == c
  {
    hide Section, SubTrees;
  }

  lemma {:induction false} PointerGlue(b: bytes, q: bytes, recs: bytes, rec: bytes, gap: nat, tail: bytes, o: nat,
                                       r: bytes)
    requires o == |q| + |recs| && |rec| == 12 && o + 12 <= |b| && r == b[..o] + rec + b[o + 12..]
    ensures Building(b, q, recs, gap + 12, tail) ==> Building(r, q, recs + rec, gap, tail)
  {
    if Building(b, q, recs, gap + 12, tail) {
      assert r[..o + 12] == b[..o] + rec;
      assert r[o + 12 + gap..] == b[o + 12 + gap..];
    }
  }

  lemma {:induction false} TailGlue(b: bytes, q: bytes, recs: bytes, gap: nat, tail: bytes, t: bytes)
    requires Building(b, q, recs, gap, tail)
    ensures Building(b + t, q, recs, gap, tail + t)
  {
    var o := |q| + |recs|;
    assert (b + t)[..o] == b[..o];
    assert (b + t)[o + gap..] == b[o + gap..] + t;
  }

  lemma {:induction false} OneRecord(x: Item, order: ByteOrder)
    ensures Records([x], 1, order) == Record(x, order)
  {
    hide Record;
    RecordsNext([x], 0, order);
    assert Records([x], 0, order) == [];
  }

  lemma {:induction false} TwoRecords(x: Item, y: Item, order: ByteOrder)
    ensures Records([x, y], 2, order) == Record(x, order) + Record(y, order)
  {
    hide Record;
    RecordsNext([x, y], 1, order);
    RecordsNext([x, y], 0, order);
    assert Records([x, y], 0, order) == [];
  }

  /** The record of a pointer that is there only if its target is. */
  ghost function PointerRecord(m: Model, tag: int, sub: Ifd): bytes
  {
    if Present(m.contents, m.thumb, sub) then Record(PointerItem(tag, Start(m, sub), m.order), m.order) else []
  }

  lemma {:induction false} Ifd0ExtraRecords(m: Model)
    ensures Records(ExtraItems(m, Ifd0), |ExtraItems(m, Ifd0)|, m.order)
         == PointerRecord(m, TAG_EXIF_POINTER, ExifIfd) + PointerRecord(m, TAG_GPS_POINTER, GpsIfd)
  {
    hide Record, Start, Present, PointerItem;
    var x, y := PointerItem(TAG_EXIF_POINTER, Start(m, ExifIfd), m.order),
      PointerItem(TAG_GPS_POINTER, Start(m, GpsIfd), m.order);
    OneRecord(x, m.order);
    OneRecord(y, m.order);
    TwoRecords(x, y, m.order);
    assert [x] + [y] == [x, y] && [x] + [] == [x] && [] + [y] == [y];
    var a, b := Record(x, m.order), Record(y, m.order);
    assert a + [] == a && [] + b == b;
  }

  lemma {:induction false} ExifExtraRecords(m: Model)
    ensures Records(ExtraItems(m, ExifIfd), |ExtraItems(m, ExifIfd)|, m.order)
      == PointerRecord(m, TAG_INTEROP_POINTER, InteropIfd)
  {
    hide Record, Start, Present, PointerItem;
    OneRecord(PointerItem(TAG_INTEROP_POINTER, Start(m, InteropIfd), m.order), m.order);
  }

  lemma {:induction false} NoPointer(b: bytes, q: bytes, recs: bytes, gap: nat, tail: bytes)
    requires Building(b, q, recs, gap, tail)
    ensures Building(b, q, recs + [], gap, tail + [])
  {
    assert recs + [] == recs && tail + [] == tail;
  }

  /** The contents once what is below a directory, on other levels, is saved. */
  ghost function AfterBelow(c: Contents, m: Model, i: Ifd): Contents
  {
    match i
    case Ifd0 => AfterTree(AfterTree(c, m, ExifIfd), m, GpsIfd)
    case ExifIfd => AfterTree(c, m, InteropIfd)
    case _ => c
  }

  predicate PristineBelow(c: Contents, m: Model, i: Ifd)
  {
    match i
    case Ifd0 => Pristine(c, m, ExifIfd) && Pristine(c, m, GpsIfd)
    case ExifIfd => Pristine(c, m, InteropIfd)
    case _ => true
  }

  lemma {:induction false} PristineWith(c: Contents, m: Model, i: Ifd, es: seq<Entry>)
    requires Pristine(c, m, i)
    ensures PristineBelow(c.With(i, es), m, i)
    ensures c.Of(i) == m.contents.Of(i)
  {
  }

  lemma {:induction false} PristineNext(c: Contents, m: Model)
    requires Pristine(c, m, GpsIfd)
    ensures Pristine(AfterTree(c, m, ExifIfd), m, GpsIfd)
  {
    hide Effs;
  }

  lemma {:induction false} AfterOwn(c: Contents, m: Model, i: Ifd)
    requires Pristine(c, m, i)
    ensures var b := AfterBelow(c.With(i, SavedEntries(m, i)), m, i);
      if i.Ifd0? then Pristine(b, m, Ifd1) && AfterTree(b, m, Ifd1) == AfterTree(c, m, i) else b == AfterTree(c, m, i)
  {
    hide Effs;
  }

  lemma {:induction false} SortGlue(b: bytes, q: bytes, recs: bytes, sorted: bytes, tail: bytes, r: bytes)
    requires Building(b, q, recs, 4, tail) && |sorted| == |recs|
    ensures b[|q|..|q| + |recs|] == recs
    ensures r == b[..|q|] + sorted + b[|q| + |recs|..] ==> Building(r, q, sorted, 4, tail)
  {
    assert b[..|q| + |recs|][|q|..] == b[|q|..|q| + |recs|];
    assert b[..|q|] == b[..|q| + |recs|][..|q|] == q;
    var p := |q| + |recs|;
    assert b[p..][4..] == b[p + 4..];
    if r == b[..|q|] + sorted + b[p..] {
      assert r[..p] == q + sorted;
      assert r[p + 4..] == b[p + 4..];
    }
  }

  lemma {:induction false} LinkGlue(b: bytes, q: bytes, recs: bytes, tail: bytes, link: bytes, r: bytes)
    requires Building(b, q, recs, 4, tail) && |link| == 4
    ensures r == b[..|q| + |recs|] + link + b[|q| + |recs| + 4..] ==> r == q + recs + link + tail
  {
  }

  lemma {:induction false} RecordsConcat(xs: seq<Item>, ys: seq<Item>, n: nat, order: ByteOrder)
    requires n <= |ys|
    ensures Records(xs + ys, |xs| + n, order) == Records(xs, |xs|, order) + Records(ys, n, order)
  {
    hide Record;
    if n == 0 {
      RecordsPrefix(xs, ys, |xs|, order);
      assert Records(ys, 0, order) == [];
      assert Records(xs, |xs|, order) + [] == Records(xs, |xs|, order);
    } else {
      RecordsConcat(xs, ys, n - 1, order);
      assert (xs + ys)[|xs| + n - 1] == ys[n - 1];
    }
  }

  lemma {:induction false} RecordsPrefix(xs: seq<Item>, ys: seq<Item>, n: nat, order: ByteOrder)
    requires n <= |xs|
    ensures Records(xs + ys, n, order) == Records(xs, n, order)
  {
    hide Record;
    if n > 0 {
      RecordsPrefix(xs, ys, n - 1, order);
    }
  }

  /** All records of a directory before sorting. */
  lemma {:induction false} AllRecords(m: Model, i: Ifd)
    ensures Records(DirItems(m, i), |DirItems(m, i)|, m.order)
      == OwnRecords(m, i) + Records(ExtraItems(m, i), |ExtraItems(m, i)|, m.order)
    ensures |DirItems(m, i)| == Count(m.contents, m.thumb, i) == |m.contents.Of(i)| + |ExtraItems(m, i)|
  {
    hide Record, Records, ExtraItems, EntrySlots, ValueStart;
    var own := Items(EntrySlots(m, i, ValueStart(m, i)), ValueStart(m, i), true);
    RecordsConcat(own, ExtraItems(m, i), |ExtraItems(m, i)|, m.order);
  }

  lemma {:induction false} FileDeterminedDir(m: Model, i: Ifd)
    ensures FileDetermined(m) ==> DirDetermined(m, i) && Sortable(DirItems(m, i))
  {
    hide Sortable, AllDetermined;
  }

  lemma {:induction false} LinkIs(m: Model, i: Ifd)
    ensures Next(m, i) == if i.Ifd0? && Present(m.contents, m.thumb, Ifd1) then Start(m, Ifd1) else 0
    ensures SubTrees(m, Ifd0) == Tree(m, ExifIfd) + Tree(m, GpsIfd)
  {
    hide Start, Present, Tree;
  }

  lemma {:induction false} TreeGlue(m: Model, i: Ifd, buf: bytes, n: nat, sub: bytes)
    requires Present(m.contents, m.thumb, i) && n == |DirItems(m, i)| && sub == SubTrees(m, i)
    ensures buf + EncShort(n, m.order) + Records(Sorted(DirItems(m, i)), n, m.order) + EncLong(Next(m, i), m.order)
              + (EntryValues(m, i, ValueStart(m, i)) + sub)
         == buf + (Section(m, i) + sub)
  {
    hide Sorted, DirItems, Records, EntryValues, Next, EncShort, EncLong, ValueStart, SubTrees, Present;
    var v := EntryValues(m, i, ValueStart(m, i));
    var c, s, l := EncShort(n, m.order), Records(Sorted(DirItems(m, i)), n, m.order), EncLong(Next(m, i), m.order);
    assert buf + c + s + l + (v + sub) == buf + ((c + s + l) + v + sub);
  }

  /** A directory whose records and all behind them are there, once the link is put in. */
  lemma {:induction false} LinkedIs(m: Model, i: Ifd, buf: bytes, b: bytes, r: bytes, n: nat)
    requires Present(m.contents, m.thumb, i) && n == |DirItems(m, i)|
    requires Building(b, buf + EncShort(n, m.order), Records(Sorted(DirItems(m, i)), n, m.order), 4,
                      EntryValues(m, i, ValueStart(m, i)) + SubTrees(m, i))
    requires var o := |buf| + 2 + 12 * n; o + 4 <= |b| && r == b[..o] + EncLong(Next(m, i), m.order) + b[o + 4..]
    ensures r == buf + (Section(m, i) + SubTrees(m, i))
  {
    hide Building, Records, EncShort, EncLong, Sorted, DirItems, EntryValues, ValueStart, SubTrees, Section, Next;
    hide Present;
    LinkGlue(b, buf + EncShort(n, m.order), Records(Sorted(DirItems(m, i)), n, m.order),
      EntryValues(m, i, ValueStart(m, i)) + SubTrees(m, i), EncLong(Next(m, i), m.order), r);
    TreeGlue(m, i, buf, n, SubTrees(m, i));
  }

  lemma {:induction false} TreeIs(m: Model, i: Ifd)
    requires Present(m.contents, m.thumb, i)
    ensures Tree(m, i) == if i.Ifd0? then Section(m, i) + SubTrees(m, i) + Tree(m, Ifd1)
      else Section(m, i) + SubTrees(m, i)
  {
    hide Section, SubTrees, Present;
    assert Section(m, i) + SubTrees(m, i) + [] == Section(m, i) + SubTrees(m, i);
  }

  /** The fourteen bytes before IFD 0. */
  method WriteFileHeader(order: ByteOrder) returns (d: bytes)
    ensures d == FileHeader(order)
  {
    hide Zeros, Put, ShortDigits, LongDigits, EncShort, EncLong;
    ShortDigitsMeetSpec(0x2a, order);
    LongDigitsMeetSpec(8, order);
    var mark := MakerNote.OrderMark(order);
    d := MakerNoteObject.Begin(EXIF_HEADER, 14);
    d := MakerNoteObject.Append(d, EXIF_HEADER, 8, mark);
    d := MakerNoteObject.Append(d, EXIF_HEADER + mark, 6, ShortDigits(0x2a, order));
    d := MakerNoteObject.Append(d, EXIF_HEADER + mark + ShortDigits(0x2a, order), 4, LongDigits(8, order));
    assert FileHeader(order) + Zeros(0) == FileHeader(order);
  }

  lemma {:induction false} SavedIs(c: Contents, m: Model)
    ensures AfterTree(c, m, Ifd0) == SavedContents(m)
  {
    hide Effs, ValueStart;
  }

  lemma {:induction false} ModelLikeItself(m: Model)
    ensures SameShape(m.contents, m.contents) && Pristine(m.contents, m, Ifd0) && Start(m, Ifd0) == 8
    ensures Present(m.contents, m.thumb, Ifd0)
  {
  }

  // ---- Helpers of the load ----

  const NO_NOTE := MakerNote.Note(MakerNote.CanonF, MakerNote.Unrecognized, Motorola, 0, [])

  /** Some directory has an entry for a maker note. */
  ghost predicate HasNote(c: Contents)
  {
    HasTag(c.ifd0, TAG_MAKER_NOTE) || HasTag(c.ifd1, TAG_MAKER_NOTE) || HasTag(c.exif, TAG_MAKER_NOTE)
    || HasTag(c.gps, TAG_MAKER_NOTE) || HasTag(c.interop, TAG_MAKER_NOTE)
  }

  /** A handler told byte order and offset, and then given the block. */
  ghost function Interpreted(n: MakerNote.Note, order: ByteOrder, offset: nat, f: bytes): MakerNote.Note
  {
    MakerNote.Load(MakerNoteOrder.SwitchedNote(n, order).(offset := offset), f)
  }

  /** The search for the EXIF block. */
  method FindExif(b: bytes) returns (f: Option<bytes>)
    ensures f == ExifLoad.FindExif(b)
  {
    if |b| < 6 {
      return None;
    }
    if LiesAt(b, 0, EXIF_HEADER) {
      return if |b| < 14 then None else Some(b);
    }
    var found := SearchMarker(b);
    if found.None? {
      return None;
    }
    var j := found.value;
    var len := GetShort(b, j + 1, Motorola);
    if len > |b| - (j + 1) || len < 16 {
      return None;
    }
    f := Some(b[j + 3..j + 1 + len]);
  }

  /** The loop over markers. */
  method SearchMarker(b: bytes) returns (r: Option<nat>)
    ensures r == ExifLoad.Search(b, 0)
  {
    hide GetShort, LiesAt, ExifLoad.SkipFill;
    var i := 0;
    while |b| - i >= 3
      invariant 0 <= i <= |b| && ExifLoad.Search(b, 0) == ExifLoad.Search(b, i)
      decreases |b| - i
    {
      var j := PassFill(b, i);
      if j < |b| && b[j] == 0xd8 {
        i := j + 1;
      } else if j < |b| && b[j] == 0xe1 && |b| - j >= 9 && LiesAt(b, j + 3, EXIF_HEADER) {
        return Some(j);
      } else if |b| - j >= 3 && 0xe0 <= b[j] <= 0xef {
        var l := GetShort(b, j + 1, Motorola);
        if l > |b| - (j + 1) {
          return None;
        }
        i := j + 1 + l;
      } else {
        return None;
      }
    }
    r := None;
  }

  method PassFill(b: bytes, i: nat) returns (j: nat)
    requires i <= |b|
    ensures j == ExifLoad.SkipFill(b, i)
  {
    j := i;
    while j < |b| && b[j] == 0xff
      invariant i <= j <= |b| && ExifLoad.SkipFill(b, i) == ExifLoad.SkipFill(b, j)
    {
      j := j + 1;
    }
  }

  // ---- Helpers of the byte-order change ----

  /** Every entry has as much data as it says, or none. */
  predicate EntriesSized(es: seq<Entry>)
  {
    forall k :: 0 <= k < |es| ==> es[k].data == [] || ValueBytes(es[k].format, es[k].components) <= |es[k].data|
  }

  function SwitchedData(e: Entry, a: ByteOrder, b: ByteOrder): (r: Entry)
    requires e.data == [] || ValueBytes(e.format, e.components) <= |e.data|
    ensures r.tag == e.tag && r.format == e.format && r.components == e.components && |r.data| == |e.data|
  {
    if e.data == [] then e else e.(data := Switched(e.format, e.data, e.components, a, b))
  }

  function SwitchedEntries(es: seq<Entry>, a: ByteOrder, b: ByteOrder): (r: seq<Entry>)
    requires EntriesSized(es)
    ensures |r| == |es|
  {
    seq(|es|, k requires 0 <= k < |es| => SwitchedData(es[k], a, b))
  }

  predicate AllSized(c: Contents)
  {
    EntriesSized(c.ifd0) && EntriesSized(c.ifd1) && EntriesSized(c.exif) && EntriesSized(c.gps)
      && EntriesSized(c.interop)
  }

  function SwitchedContents(c: Contents, a: ByteOrder, b: ByteOrder): Contents
    requires AllSized(c)
  {
    Contents(SwitchedEntries(c.ifd0, a, b), SwitchedEntries(c.ifd1, a, b), SwitchedEntries(c.exif, a, b),
             SwitchedEntries(c.gps, a, b), SwitchedEntries(c.interop, a, b))
  }

  /** The loop over the entries of one directory. */
  method SwitchEntries(es: seq<Entry>, a: ByteOrder, b: ByteOrder) returns (r: seq<Entry>)
    requires EntriesSized(es)
    ensures r == SwitchedEntries(es, a, b)
  {
    hide Switched;
    r := es;
    for i := 0 to |es|
      invariant |r| == |es|
      invariant forall k :: 0 <= k < i ==> r[k] == SwitchedData(es[k], a, b)
      invariant forall k :: i <= k < |es| ==> r[k] == es[k]
    {
      if r[i].data != [] {
        var data := SwitchValue(r[i].format, r[i].data, r[i].components, a, b);
        r := r[i := r[i].(data := data)];
      }
    }
  }

  /** Every component of every entry reads the same after the change, under the new order. */
  lemma {:induction false} DataKeepsMeaning(e: Entry, a: ByteOrder, b: ByteOrder, k: nat)
    requires ValueBytes(e.format, e.components) <= |e.data| && e.data != []
    ensures Unit(e.format) == 2 && k < e.components ==>
      2 * k + 2 <= |e.data| && GetShort(SwitchedData(e, a, b).data, 2 * k, b) == GetShort(e.data, 2 * k, a)
    ensures Unit(e.format) == 4 && k < Units(e.format, e.components) ==>
      4 * k + 4 <= |e.data| && GetLong(SwitchedData(e, a, b).data, 4 * k, b) == GetLong(e.data, 4 * k, a)
  {
    hide Switched, GetShort, GetLong;
    if Unit(e.format) == 2 && k < e.components {
      ShortsKeep(e.format, e.data, e.components, a, b, k);
    }
    if Unit(e.format) == 4 && k < Units(e.format, e.components) {
      LongsKeep(e.format, e.data, e.components, a, b, k);
    }
  }

  /**
   Component `k` of an entry reads the same in `r`, in order `b`, as in `e`, in order `a`: shorts, longs, and both
   halves of rationals. Entries of other formats are the same.
   */
  predicate ReadsAlike(e: Entry, r: Entry, a: ByteOrder, b: ByteOrder, k: nat)
  {
    && r.tag == e.tag && r.format == e.format && r.components == e.components && |r.data| == |e.data|
    && (e.format in {3, 8} && k < e.components && e.data != [] ==>
          2 * k + 2 <= |e.data| && GetShort(r.data, 2 * k, b) == GetShort(e.data, 2 * k, a))
    && (e.format in {4, 9} && k < e.components && e.data != [] ==>
          4 * k + 4 <= |e.data| && GetLong(r.data, 4 * k, b) == GetLong(e.data, 4 * k, a))
    && (e.format in {5, 10} && k < e.components && e.data != [] ==>
          && 8 * k + 8 <= |e.data|
          && GetLong(r.data, 8 * k, b) == GetLong(e.data, 8 * k, a)
          && GetLong(r.data, 8 * k + 4, b) == GetLong(e.data, 8 * k + 4, a))
    && (e.format !in {3, 4, 5, 8, 9, 10} ==> r == e)
  }

  lemma {:induction false} DataAlike(e: Entry, a: ByteOrder, b: ByteOrder, k: nat)
    requires e.data == [] || ValueBytes(e.format, e.components) <= |e.data|
    ensures ReadsAlike(e, SwitchedData(e, a, b), a, b, k)
  {
    hide Switched, GetShort, GetLong;
    if e.data != [] && k < e.components {
      if e.format in {5, 10} {
        DataKeepsMeaning(e, a, b, 2 * k);
        DataKeepsMeaning(e, a, b, 2 * k + 1);
      } else {
        DataKeepsMeaning(e, a, b, k);
      }
    }
    if e.data != [] && e.format !in {3, 4, 5, 8, 9, 10} {
      OtherFormats(e.format, e.data, e.components, a, b);
    }
  }

  lemma {:induction false} OtherFormats(f: int, s: bytes, n: nat, a: ByteOrder, b: ByteOrder)
    requires ValueBytes(f, n) <= |s| && f !in {3, 4, 5, 8, 9, 10}
    ensures Switched(f, s, n, a, b) == s
  {
  }

  /**
   What the whole object holds after the change: every entry of every directory reads the same under the new order.
   */
  lemma {:induction false} ContentsAlike(c: Contents, a: ByteOrder, b: ByteOrder, i: Ifd, j: nat, k: nat)
    requires AllSized(c) && j < |c.Of(i)|
    ensures |SwitchedContents(c, a, b).Of(i)| == |c.Of(i)|
    ensures ReadsAlike(c.Of(i)[j], SwitchedContents(c, a, b).Of(i)[j], a, b, k)
  {
    hide Switched, ReadsAlike;
    DataAlike(c.Of(i)[j], a, b, k);
  }

  lemma {:induction false} DataBack(e: Entry, a: ByteOrder, b: ByteOrder)
    requires e.data == [] || ValueBytes(e.format, e.components) <= |e.data|
    ensures SwitchedData(SwitchedData(e, a, b), b, a) == e
  {
    hide Switched;
    if e.data != [] {
      SwitchedBack(e.format, e.data, e.components, a, b);
    }
  }

  class ExifData {
    var order: ByteOrder
    var contents: Contents
    /** The thumbnail; empty where the C pointer is NULL. */
    var thumb: bytes
    /** The interpreted maker note, if there is one. */
    var md: MakerNoteObject.MnoteData?
    var keepNote: bool
    var ignoreUnknown: bool
    /** Which directories have been entered, and where the maker note was found; used while loading. */
    var used: ExifLoad.Used
    var offsetMnote: nat
    /** The walks so far. */
    ghost var visits: seq<ExifLoad.Visit>
    const table: seq<TagTable.Row>

    constructor (table: seq<TagTable.Row>)
      ensures LoadState() == ExifLoad.FRESH && md == null && !keepNote && ignoreUnknown && this.table == table
    {
      this.table := table;
      order, contents, thumb, md := Motorola, EMPTY, [], null;
      keepNote, ignoreUnknown := false, true;
      used, offsetMnote, visits := ExifLoad.Used(false, false, false), 0, [];
    }

    ghost function LoadState(): ExifLoad.State
      reads this
    {
      ExifLoad.State(contents, used, thumb, offsetMnote, visits)
    }

    /** What a load of the bytes `d` looks at. */
    ghost function InputOf(d: bytes): ExifLoad.Input
      reads this
    {
      ExifLoad.Input(d, order, table, ignoreUnknown)
    }

    ghost function TheModel(): Model
      reads this, md
    {
      Model(order, contents, thumb, if md == null then None else Some(md.Value()), keepNote)
    }

    /** The object saves like `m`, apart from its contents and the offset its maker note was told last. */
    ghost predicate SavesLike(m: Model)
      reads this, md
    {
      && order == m.order && thumb == m.thumb && keepNote == m.keepNote
      && (md == null <==> m.md.None?)
      && (md != null ==> md.Value() == m.md.value.(offset := md.offset))
    }

    /** exif_data_save_data_entry; `eff` is what becomes of the entry. */
    method SaveEntry(buf: bytes, at: nat, e: Entry, ghost m: Model) returns (r: bytes, eff: Entry)
      requires at + 12 <= |buf| && 6 <= |buf| && SavesLike(m)
      modifies md
      ensures SavesLike(m)
      ensures eff == Effective(m, e, |buf| - 6)
      ensures |r| == |buf| + |OutOfLine(Payload(eff), true)|
      ensures Determined(eff) ==>
        r == buf[..at] + Record(Item(SlotOf(e, eff), |buf| - 6), order)
          + (buf[at + 12..] + OutOfLine(Payload(eff), true))
    {
      hide Payload, Record, OutOfLine, Determined, MakerNote.Saved;
      eff := e;
      if e.tag == TAG_MAKER_NOTE && md != null && !keepNote {
        md.SetOffset(|buf| - 6);
        var data, size := md.Save();
        eff := Entry(e.tag, if FormatSize(e.format) == 1 then e.format else FMT_UNDEFINED, size, data);
      }
      r := PutEntry(buf, at, e, eff, order);
    }

    /** One turn of the loop over the entries of directory `i`, with `r` built so far from `buf`. */
    method SaveTurn(i: Ifd, before: bytes, o: nat, j: nat, ghost m: Model, ghost buf: bytes, ghost was: Contents,
                    ghost effs: seq<Entry>, ghost slots: seq<Slot>, ghost items: seq<Item>) returns (r: bytes)
      requires SavesLike(m) && was.Of(i) == m.contents.Of(i) && j < |was.Of(i)| && 6 <= |buf|
      requires o + 12 * |was.Of(i)| <= |buf|
      requires effs == Effs(m, m.contents.Of(i), |m.contents.Of(i)|, |buf| - 6)
      requires slots == SlotsOf(m.contents.Of(i), effs) && items == Items(slots, |buf| - 6, true)
      requires contents == was.With(i, effs[..j] + m.contents.Of(i)[j..])
      requires |before| == |buf| + |Values(slots, j, true)|
      requires AllDetermined(effs) ==> Saving(buf, before, o, items, slots, j, order)
      modifies this`contents, md
      ensures SavesLike(m) && contents == was.With(i, effs[..j + 1] + m.contents.Of(i)[j + 1..])
      ensures |r| == |buf| + |Values(slots, j + 1, true)|
      ensures AllDetermined(effs) ==> Saving(buf, r, o, items, slots, j + 1, order)
    {
      hide Payload, Record, Records, Values, OutOfLine, Determined, Effective, Effs, Contents.With, Contents.Of, Items;
      hide SlotOf;
      ghost var es := m.contents.Of(i);
      StoreGlue(was, i, effs, es, j);
      TurnFacts(m, es, |buf| - 6, j, effs, slots, items);
      var eff;
      r, eff := SaveEntry(before, o + 12 * j, contents.Of(i)[j], m);
      if AllDetermined(effs) {
        TurnGlue(buf, o, Records(items, j, order), Record(items[j], order), Values(slots, j, true),
          OutOfLine(Payload(effs[j]), true), before);
      }
      contents := contents.With(i, contents.Of(i)[j := eff]);
    }

    /** The loop over the entries of directory `i`, whose records start at `o`. */
    method SaveEntries(i: Ifd, buf: bytes, o: nat, ghost m: Model) returns (r: bytes)
      requires 6 <= |buf| && o + 12 * |contents.Of(i)| <= |buf| && SavesLike(m) && contents.Of(i) == m.contents.Of(i)
      modifies this`contents, md
      ensures SavesLike(m)
      ensures contents == old(contents).With(i, Effs(m, m.contents.Of(i), |m.contents.Of(i)|, |buf| - 6))
      ensures |r| == |buf| + |EntryValues(m, i, |buf| - 6)|
      ensures AllDetermined(Effs(m, m.contents.Of(i), |m.contents.Of(i)|, |buf| - 6)) ==>
        r == buf[..o] + Records(Items(EntrySlots(m, i, |buf| - 6), |buf| - 6, true), |m.contents.Of(i)|, order)
             + buf[o + 12 * |m.contents.Of(i)|..] + EntryValues(m, i, |buf| - 6)
    {
      hide Records, Values, Effs, Contents.With, Contents.Of, Items, SlotsOf, AllDetermined, SavesLike;
      ghost var start := |buf| - 6;
      ghost var es := m.contents.Of(i);
      ghost var effs := Effs(m, es, |es|, start);
      ghost var slots := SlotsOf(es, effs);
      ghost var items := Items(slots, start, true);
      ghost var was := contents;
      var n := |contents.Of(i)|;
      r := buf;
      StartGlue(buf, o, items, slots, order);
      StoreStart(was, i, effs);
      for j := 0 to n
        invariant SavesLike(m) && contents == was.With(i, effs[..j] + es[j..])
        invariant |r| == |buf| + |Values(slots, j, true)|
        invariant AllDetermined(effs) ==> Saving(buf, r, o, items, slots, j, order)
      {
        r := SaveTurn(i, r, o, j, m, buf, was, effs, slots, items);
      }
    }

    /** Room for directory `i`, its count, and its entries; `r` is `buf` with all that behind it. */
    method SaveOwn(i: Ifd, buf: bytes, ghost m: Model) returns (r: bytes)
      requires 6 <= |buf| && |buf| - 6 == Start(m, i) && Present(m.contents, m.thumb, i) && SavesLike(m)
      requires contents.Of(i) == m.contents.Of(i) && SameShape(contents, m.contents)
      modifies this`contents, md
      ensures SavesLike(m) && contents == old(contents).With(i, SavedEntries(m, i)) && SameShape(contents, m.contents)
      ensures |r| == 6 + End(m, i) && 0 <= |buf| + 2 + 12 * Count(m.contents, m.thumb, i) + 4 <= |r|
      ensures DirDetermined(m, i) ==>
        Building(r, buf + EncShort(Count(m.contents, m.thumb, i), order), OwnRecords(m, i),
          12 * Extras(m.contents, m.thumb, i) + 4,
                 EntryValues(m, i, ValueStart(m, i)))
    {
      hide Records, Values, Effs, Contents.With, Contents.Of, Items, AllDetermined, Sortable, EntryValues, EntrySlots;
      hide Count, Extras, Present, Start, End, ValueStart, SameShape, Building;
      PositionsOf(m, i);
      SameCount(contents, m.contents, thumb, i);
      CountIs(m, i);
      ghost var was := contents;
      var n := Count(contents, thumb, i);
      var t := Grow(buf, n, order);
      r := SaveEntries(i, t, |buf| + 2, m);
      OwnGlue(buf + EncShort(n, order), t, OwnRecords(m, i), EntryValues(m, i, ValueStart(m, i)),
        12 * |m.contents.Of(i)|, r);
      WithShape(was, m.contents, i, SavedEntries(m, i));
    }

    /**
     A pointer record at `o`, and the directory it points to at the end of the buffer, if there is something to point
     to.
     */
    method SavePointed(tag: int, sub: Ifd, before: bytes, o: nat, ghost m: Model, ghost q: bytes, ghost recs: bytes,
                       ghost gap: nat, ghost tail: bytes)
      returns (r: bytes, next: nat)
      requires SavesLike(m) && SameShape(contents, m.contents) && Pristine(contents, m, sub)
      requires 6 <= |before| && |before| - 6 == Start(m, sub) && o + |PointerRecord(m, tag, sub)| <= |before|
      requires FileDetermined(m) ==>
        Building(before, q, recs, gap + |PointerRecord(m, tag, sub)|, tail) && o == |q| + |recs|
      modifies this`contents, md
      ensures SavesLike(m) && SameShape(contents, m.contents) && contents == AfterTree(old(contents), m, sub)
      ensures |r| == |before| + |Tree(m, sub)| && next == o + |PointerRecord(m, tag, sub)|
      ensures FileDetermined(m) ==> Building(r, q, recs + PointerRecord(m, tag, sub), gap, tail + Tree(m, sub))
      decreases Depth(sub), 4
    {
      hide Present, Start, Tree, Building, SameShape, FileDetermined, Record, Pristine, AfterTree, PointerItem;
      SameCount(contents, m.contents, thumb, sub);
      ghost var rec := PointerRecord(m, tag, sub);
      if !Present(contents, thumb, sub) {
        AbsentTree(contents, m, sub);
        if FileDetermined(m) {
          NoPointer(before, q, recs, gap, tail);
        }
        return before, o;
      }
      var b := PutPointer(before, o, tag, |before| - 6, order);
      if FileDetermined(m) {
        PointerGlue(before, q, recs, rec, gap, tail, o, b);
      }
      next := o + 12;
      r := SaveContent(sub, b, m);
      if FileDetermined(m) {
        TailGlue(b, q, recs + rec, gap, tail, Tree(m, sub));
      }
    }

    /** The thumbnail and its two records. */
    method SaveThumbnail(before: bytes, o: nat, ghost m: Model, ghost q: bytes, ghost recs: bytes, ghost tail: bytes)
      returns (r: bytes)
      requires SavesLike(m) && 6 <= |before| && |before| - 6 == End(m, Ifd1)
      requires o + 12 * |ExtraItems(m, Ifd1)| + 4 <= |before|
      requires FileDetermined(m) ==>
        Building(before, q, recs, 12 * |ExtraItems(m, Ifd1)| + 4, tail) && o == |q| + |recs|
      ensures |r| == |before| + |m.thumb|
      ensures FileDetermined(m) ==>
        Building(r, q, recs + Records(ExtraItems(m, Ifd1), |ExtraItems(m, Ifd1)|, order), 4, tail + m.thumb)
    {
      hide End, Building, FileDetermined, Record, PointerItem;
      r := before;
      if thumb == [] {
        if FileDetermined(m) {
          NoPointer(before, q, recs, 4, tail);
        }
        return;
      }
      ghost var x, y := PointerItem(TAG_THUMBNAIL, End(m, Ifd1), order),
        PointerItem(TAG_THUMBNAIL_LENGTH, |thumb|, order);
      var b := PutPointer(before, o, TAG_THUMBNAIL, |before| - 6, order);
      var t := Realloc(b, |b| + |thumb|);
      assert t == b + t[|b|..] + [];
      PutAt(t, b, t[|b|..], [], thumb);
      t := Put(t, |b|, thumb);
      assert t == b + thumb;
      r := PutPointer(t, o + 12, TAG_THUMBNAIL_LENGTH, |thumb|, order);
      if FileDetermined(m) {
        PointerGlue(before, q, recs, Record(x, order), 16, tail, o, b);
        TailGlue(b, q, recs + Record(x, order), 16, tail, thumb);
        PointerGlue(t, q, recs + Record(x, order), Record(y, order), 4, tail + thumb, o + 12, r);
        TwoRecords(x, y, order);
        assert recs + Record(x, order) + Record(y, order) == recs + (Record(x, order) + Record(y, order));
      }
    }

    /** The special records of a directory, at `o`, and what belongs to them. */
    method SaveExtras(i: Ifd, before: bytes, o: nat, ghost m: Model, ghost q: bytes, ghost recs: bytes,
                      ghost tail: bytes) returns (r: bytes)
      requires SavesLike(m) && SameShape(contents, m.contents) && PristineBelow(contents, m, i)
      requires 6 <= |before| && |before| - 6 == End(m, i) && o + 12 * |ExtraItems(m, i)| + 4 <= |before|
      requires FileDetermined(m) ==> Building(before, q, recs, 12 * |ExtraItems(m, i)| + 4, tail) && o == |q| + |recs|
      modifies this`contents, md
      ensures SavesLike(m) && SameShape(contents, m.contents) && contents == AfterBelow(old(contents), m, i)
      ensures |r| == |before| + |SubTrees(m, i)|
      ensures FileDetermined(m) ==>
        Building(r, q, recs + Records(ExtraItems(m, i), |ExtraItems(m, i)|, order), 4, tail + SubTrees(m, i))
      decreases Depth(i), 0
    {
      hide Present, Start, End, Tree, Building, SameShape, FileDetermined, Record, PointerItem, AfterTree, Pristine;
      hide PointerRecord;
      TreePositions(m);
      var next := o;
      match i {
        case Ifd0 =>
          Ifd0ExtraRecords(m);
          ghost var x, y := PointerRecord(m, TAG_EXIF_POINTER, ExifIfd), PointerRecord(m, TAG_GPS_POINTER, GpsIfd);
          PristineNext(contents, m);
          r, next := SavePointed(TAG_EXIF_POINTER, ExifIfd, before, o, m, q, recs, |y| + 4, tail);
          r, next := SavePointed(TAG_GPS_POINTER, GpsIfd, r, next, m, q, recs + x, 4, tail + Tree(m, ExifIfd));
          assert recs + x + y == recs + (x + y);
          assert tail + Tree(m, ExifIfd) + Tree(m, GpsIfd) == tail + (Tree(m, ExifIfd) + Tree(m, GpsIfd));
        case ExifIfd =>
          ExifExtraRecords(m);
          r, next := SavePointed(TAG_INTEROP_POINTER, InteropIfd, before, o, m, q, recs, 4, tail);
        case Ifd1 =>
          r := SaveThumbnail(before, o, m, q, recs, tail);
        case _ =>
          r := before;
          if FileDetermined(m) {
            NoPointer(before, q, recs, 4, tail);
          }
      }
    }

    /** The records of directory `i`, sorted, and all behind them; only the link at `link` is missing. */
    method SaveRecords(i: Ifd, buf: bytes, ghost m: Model) returns (r: bytes, link: nat)
      requires SavesLike(m) && SameShape(contents, m.contents) && Pristine(contents, m, i)
      requires Present(m.contents, m.thumb, i)
      requires 6 <= |buf| && |buf| - 6 == Start(m, i)
      modifies this`contents, md
      ensures SavesLike(m) && SameShape(contents, m.contents)
      ensures contents == AfterBelow(old(contents).With(i, SavedEntries(m, i)), m, i)
      ensures |r| == 6 + End(m, i) + |SubTrees(m, i)| && link == |buf| + 2 + 12 * |DirItems(m, i)| && link + 4 <= |r|
      ensures FileDetermined(m) ==>
        Building(r, buf + EncShort(|DirItems(m, i)|, order), Records(Sorted(DirItems(m, i)), |DirItems(m, i)|, order),
          4,
                 EntryValues(m, i, ValueStart(m, i)) + SubTrees(m, i))
      decreases Depth(i), 1
    {
      hide Present, Start, End, Tree, SubTrees, Building, SameShape, FileDetermined, Record, Records, AfterTree;
      hide Pristine, Section, DirItems, ExtraItems, EntryValues, OwnRecords, Count, Sorted, Sortable, Contents.With;
      hide Contents.Of, AfterBelow, ValueStart, EncShort, EncLong, DirDetermined, Extras, PristineBelow;
      PristineWith(contents, m, i, SavedEntries(m, i));
      AllRecords(m, i);
      CountIs(m, i);
      FileDeterminedDir(m, i);
      SameCount(contents, m.contents, thumb, i);
      PositionsOf(m, i);
      var n := Count(contents, thumb, i);
      ghost var q := buf + EncShort(n, order);
      ghost var all := OwnRecords(m, i) + Records(ExtraItems(m, i), |ExtraItems(m, i)|, order);
      ghost var tail := EntryValues(m, i, ValueStart(m, i)) + SubTrees(m, i);
      r := SaveOwn(i, buf, m);
      SameCount(contents, m.contents, thumb, i);
      r := SaveExtras(i, r, |buf| + 2 + 12 * |contents.Of(i)|, m, q, OwnRecords(m, i),
        EntryValues(m, i, ValueStart(m, i)));
      ghost var b := r;
      r := SortDirectory(r, |buf| + 2, n, order, DirItems(m, i));
      if FileDetermined(m) {
        SortGlue(b, q, all, Records(Sorted(DirItems(m, i)), n, order), tail, r);
      }
      link := |buf| + 2 + 12 * n;
    }

    /** Directory `i` with its link, which leads to the end of the buffer if IFD 1 is to follow there. */
    method SaveLinked(i: Ifd, buf: bytes, ghost m: Model) returns (r: bytes)
      requires SavesLike(m) && SameShape(contents, m.contents) && Pristine(contents, m, i)
      requires Present(m.contents, m.thumb, i)
      requires 6 <= |buf| && |buf| - 6 == Start(m, i)
      modifies this`contents, md
      ensures SavesLike(m) && SameShape(contents, m.contents)
      ensures contents == AfterBelow(old(contents).With(i, SavedEntries(m, i)), m, i)
      ensures |r| == 6 + End(m, i) + |SubTrees(m, i)|
      ensures FileDetermined(m) ==> r == buf + (Section(m, i) + SubTrees(m, i))
      decreases Depth(i), 2
    {
      hide Present, Start, End, Tree, SubTrees, Building, SameShape, FileDetermined, Record, Records, Pristine, Section;
      hide DirItems, EntryValues, Sorted, Contents.With, Contents.Of, AfterBelow, ValueStart, EncShort, EncLong, Next;
      TreePositions(m);
      LinkIs(m, i);
      var b, link := SaveRecords(i, buf, m);
      SameCount(contents, m.contents, thumb, Ifd1);
      assert b == b[..link] + b[link..link + 4] + b[link + 4..];
      var to := if i.Ifd0? && Present(contents, thumb, Ifd1) then |b| - 6 else 0;
      r := PutLong(b, link, to, order, b[..link], b[link..link + 4], b[link + 4..]);
      if FileDetermined(m) {
        LinkedIs(m, i, buf, b, r, |DirItems(m, i)|);
      }
    }

    /** exif_data_save_data_content: directory `i` and all that is saved behind it, at the end of the buffer. */
    method SaveContent(i: Ifd, buf: bytes, ghost m: Model) returns (r: bytes)
      requires SavesLike(m) && SameShape(contents, m.contents) && Pristine(contents, m, i)
      requires Present(m.contents, m.thumb, i)
      requires 6 <= |buf| && |buf| - 6 == Start(m, i)
      modifies this`contents, md
      ensures SavesLike(m) && SameShape(contents, m.contents) && contents == AfterTree(old(contents), m, i)
      ensures |r| == |buf| + |Tree(m, i)|
      ensures FileDetermined(m) ==> r == buf + Tree(m, i)
      decreases Depth(i), 3
    {
      hide Present, Start, End, Tree, SubTrees, SameShape, FileDetermined, AfterTree, Pristine, Section, DirItems;
      hide Contents.With, Contents.Of, AfterBelow;
      AfterOwn(contents, m, i);
      SectionSize(m, i);
      TreePositions(m);
      LinkIs(m, i);
      TreeIs(m, i);
      r := SaveLinked(i, buf, m);
      if i.Ifd0? {
        SameCount(contents, m.contents, thumb, Ifd1);
        if Present(contents, thumb, Ifd1) {
          r := SaveContent(Ifd1, r, m);
        } else {
          AbsentTree(contents, m, Ifd1);
        }
      }
    }

    /** exif_data_save_data. */
    method SaveData() returns (d: bytes)
      modifies this`contents, md
      ensures contents == SavedContents(old(TheModel())) && SavesLike(old(TheModel()))
      ensures |d| == |FileOf(old(TheModel()))|
      ensures FileDetermined(old(TheModel())) ==> d == FileOf(old(TheModel()))
    {
      hide Present, Start, Tree, FileDetermined, AfterTree, Pristine, SameShape, FileHeader, SavedContents, FileOf;
      ghost var m := TheModel();
      ModelLikeItself(m);
      FileIsTree(m);
      SavedIs(m.contents, m);
      d := WriteFileHeader(order);
      d := SaveContent(Ifd0, d, m);
    }

    // ---- Loading ----

    /** exif_data_load_data_entry. */
    method LoadEntry(d: bytes, pos: nat) returns (l: Option<ExifLoad.Loaded>)
      requires pos + 12 <= |d|
      ensures l == ExifLoad.LoadEntry(InputOf(d), pos)
    {
      hide GetShort, GetLong;
      var tag, format, components := GetShort(d, pos, order), GetShort(d, pos + 2, order), GetLong(d, pos + 4, order);
      var formatsize := FormatSize(format);
      if formatsize == 0 || components >= 0xffff_ffff / formatsize {
        return None;
      }
      ValueBytesIsProduct(format, components);
      var s := formatsize * components;
      if s == 0 {
        return None;
      }
      var doff := if s > 4 then GetLong(d, pos + 8, order) else pos + 8;
      if doff >= |d| || s > |d| - doff {
        return None;
      }
      l := Some(ExifLoad.Loaded(Entry(tag, format, components, d[doff..doff + s]), doff));
    }

    /** exif_content_add_entry. */
    method AddEntry(ifd: Ifd, e: Entry)
      modifies this`contents
      ensures contents == old(contents).With(ifd, ExifLoad.AddEntry(old(contents).Of(ifd), e))
    {
      hide HasTag;
      var found := Find(contents.Of(ifd), e.tag);
      if !found {
        contents := contents.With(ifd, contents.Of(ifd) + [e]);
      }
    }

    /** A record that is not special. */
    method LoadOrdinary(ifd: Ifd, d: bytes, pos: nat)
      requires ExifLoad.ValidInput(InputOf(d)) && pos + 12 <= |d|
      modifies this`contents, this`offsetMnote
      ensures LoadState() == ExifLoad.Ordinary(old(LoadState()), ifd, InputOf(d), pos)
    {
      hide GetShort, ExifLoad.LoadEntry, ExifLoad.AddEntry, TagTable.ValidTable, TagTable.NameScan;
      var name := TagTable.NameInIfd(table, GetShort(d, pos, order), ifd);
      if name.None? && ((d[pos] == 0 && d[pos + 1] == 0 && d[pos + 2] == 0 && d[pos + 3] == 0) || ignoreUnknown) {
        return;
      }
      var l := LoadEntry(d, pos);
      if l.Some? {
        if l.value.e.tag == TAG_MAKER_NOTE {
          offsetMnote := l.value.at;
        }
        AddEntry(ifd, l.value.e);
      }
    }

    /** exif_data_load_data_thumbnail. */
    method LoadThumbnail(d: bytes, o: nat, s: nat)
      modifies this`thumb
      ensures LoadState() == ExifLoad.LoadThumbnail(old(LoadState()), d, o, s)
    {
      if o >= |d| || CheckOverflow(o, |d|, s) {
        return;
      }
      thumb := d[o..o + s];
    }

    /** A special record whose value `o` lies inside the data: a pointer to follow, or half of the thumbnail's place. */
    method LoadSpecial(ifd: Ifd, d: bytes, tag: int, o: nat, n: nat, cost: nat, ghost path: seq<nat>, to: nat, tl: nat)
      returns (to': nat, tl': nat)
      requires ExifLoad.ValidInput(InputOf(d)) && Special(tag) && cost == ExifLoad.PathCost(path)
      modifies this`contents, this`used, this`thumb, this`offsetMnote, this`visits
      ensures ExifLoad.Loop(LoadState(), to', tl', false)
           == ExifLoad.StepSpecial(ExifLoad.Loop(old(LoadState()), to, tl, false), ifd, InputOf(d), tag, o, n, path)
      decreases used.Unset(), 0
    {
      hide ExifLoad.LoadContent, ExifLoad.LevelCost, ExifLoad.PathCost, TagTable.ValidTable, ExifLoad.LoadThumbnail;
      to', tl' := to, tl;
      var target := ExifLoad.Target(tag);
      match target {
        case None =>
          if tag == TAG_THUMBNAIL {
            to' := o;
          } else {
            tl' := o;
          }
          if to' != 0 && tl' != 0 {
            LoadThumbnail(d, to', tl');
          }
        case Some(i) =>
          if i == ifd || contents.Of(i) != [] || used.Of(i) {
            return;
          }
          used := used.Mark(i);
          CostOfStep(path, n);
          LoadContent(i, d, o, cost + ExifLoad.LevelCost(n), path + [n]);
      }
    }

    /** One turn of the loop over the records of a directory. */
    method LoadRecord(ifd: Ifd, d: bytes, at: nat, n: nat, k: nat, cost: nat, ghost path: seq<nat>, to: nat, tl: nat)
      returns (stop: bool, to': nat, tl': nat)
      requires ExifLoad.ValidInput(InputOf(d)) && cost == ExifLoad.PathCost(path) && k < n && at + 12 * n <= |d|
      modifies this`contents, this`used, this`thumb, this`offsetMnote, this`visits
      ensures ExifLoad.Loop(LoadState(), to', tl', stop)
           == ExifLoad.StepRecord(ExifLoad.Loop(old(LoadState()), to, tl, false), ifd, InputOf(d), at, n, k, path)
      decreases used.Unset(), 1
    {
      hide GetShort, GetLong, ExifLoad.PathCost, TagTable.ValidTable, ExifLoad.StepSpecial, ExifLoad.Ordinary, Special;
      stop, to', tl' := false, to, tl;
      var pos := at + 12 * k;
      var tag := GetShort(d, pos, order);
      if Special(tag) {
        var o := GetLong(d, pos + 8, order);
        if o >= |d| {
          stop := cost > 0;
        } else {
          to', tl' := LoadSpecial(ifd, d, tag, o, n, cost, path, to, tl);
        }
      } else {
        LoadOrdinary(ifd, d, pos);
      }
    }

    /** exif_data_load_data_content. */
    method LoadContent(ifd: Ifd, d: bytes, at: nat, cost: nat, ghost path: seq<nat>)
      requires ExifLoad.ValidInput(InputOf(d)) && cost == ExifLoad.PathCost(path)
      modifies this`contents, this`used, this`thumb, this`offsetMnote, this`visits
      ensures LoadState() == ExifLoad.LoadContent(old(LoadState()), ifd, InputOf(d), at, path)
      decreases used.Unset(), 2
    {
      hide GetShort, ExifLoad.PathCost, TagTable.ValidTable, ExifLoad.StepRecord, ExifLoad.LoadRecords;
      hide ExifLoad.LoadContent;
      ghost var x := InputOf(d);
      ContentIs(LoadState(), ifd, x, at, path);
      if cost > ExifLoad.MAX_COST {
        return;
      }
      if CheckOverflow(at, |d|, 2) {
        return;
      }
      var n := GetShort(d, at, order);
      if CheckOverflow(at + 2, |d|, 12 * n) {
        n := (|d| - (at + 2)) / 12;
      }
      visits := visits + [ExifLoad.Visit(ifd, at, n, path)];
      var thumbnailOffset, thumbnailLength := 0, 0;
      ghost var start := ExifLoad.Loop(LoadState(), 0, 0, false);
      var i, stop := 0, false;
      while i < n && !stop
        invariant 0 <= i <= n && InputOf(d) == x && at + 2 + 12 * n <= |d|
        invariant used.Unset() <= old(used).Unset()
        invariant ExifLoad.LoadRecords(start, ifd, x, at + 2, n, 0, path)
               == ExifLoad.LoadRecords(ExifLoad.Loop(LoadState(), thumbnailOffset, thumbnailLength, stop), ifd, x,
                 at + 2, n, i, path)
      {
        RecordsAre(ExifLoad.Loop(LoadState(), thumbnailOffset, thumbnailLength, false), ifd, x, at + 2, n, i, path);
        stop, thumbnailOffset, thumbnailLength :=
          LoadRecord(ifd, d, at + 2, n, i, cost, path, thumbnailOffset, thumbnailLength);
        i := i + 1;
      }
      RecordsEnd(ExifLoad.Loop(LoadState(), thumbnailOffset, thumbnailLength, stop), ifd, x, at + 2, n, i, path);
    }

    /** Both directory chains of the block `d`; `complete` if the maker note gets its turn. */
    method LoadBlock(d: bytes) returns (complete: bool)
      requires ExifLoad.ValidInput(InputOf(d)) && |d| >= 8
      modifies this`contents, this`used, this`thumb, this`offsetMnote, this`visits
      ensures ExifLoad.Result(order, LoadState(), complete) == ExifLoad.LoadBlock(old(LoadState()), InputOf(d))
    {
      hide GetShort, GetLong, ExifLoad.LoadContent, TagTable.ValidTable;
      if GetShort(d, 2, order) != 0x2a {
        return false;
      }
      var offset := GetLong(d, 4, order);
      if offset + 2 > |d| {
        return false;
      }
      LoadContent(Ifd0, d, offset, 0, []);
      var n := GetShort(d, offset, order);
      if offset + 2 + 12 * n + 4 > |d| {
        return false;
      }
      var next := GetLong(d, offset + 2 + 12 * n, order);
      if next != 0 && next <= |d| {
        LoadContent(Ifd1, d, next, 0, []);
      }
      complete := true;
    }

    /** Tells a handler byte order and offset, and gives it the block. */
    method GiveNote(n: MakerNoteObject.MnoteData, f: bytes)
      modifies n
      ensures n.Value() == Interpreted(old(n.Value()), order, offsetMnote, f)
    {
      hide MakerNote.Load, MakerNoteOrder.SwitchedNote;
      n.SetByteOrder(order);
      n.SetOffset(offsetMnote);
      n.Load(f);
    }

    /** interpret_maker_note; `handler` is the new handler if the note has been recognized. */
    method InterpretMakerNote(f: bytes, handler: MakerNoteObject.MnoteData?)
      modifies this`md, md, handler
      ensures !HasNote(contents) ==>
        md == old(md) && (md != null ==> md.Value() == old(if md == null then NO_NOTE else md.Value()))
      ensures HasNote(contents) ==> md == (if handler != null then handler else old(md))
      ensures HasNote(contents) && md != null ==>
        md.Value() == Interpreted(old(if handler != null then handler.Value() else if md != null then md.Value()
          else NO_NOTE), order, offsetMnote, f)
    {
      hide HasTag, Interpreted;
      var a := Find(contents.Of(Ifd0), TAG_MAKER_NOTE);
      var b := Find(contents.Of(Ifd1), TAG_MAKER_NOTE);
      var c := Find(contents.Of(ExifIfd), TAG_MAKER_NOTE);
      var g := Find(contents.Of(GpsIfd), TAG_MAKER_NOTE);
      var p := Find(contents.Of(InteropIfd), TAG_MAKER_NOTE);
      if !(a || b || c || g || p) {
        return;
      }
      if handler != null {
        md := handler;
      }
      if md != null {
        GiveNote(md, f);
      }
    }

    /** exif_data_load_data, up to the repairs that the option to follow the specification asks for. */
    method LoadData(b: bytes, handler: MakerNoteObject.MnoteData?) returns (complete: bool)
      requires TagTable.ValidTable(table)
      modifies this`order, this`contents, this`used, this`thumb, this`offsetMnote, this`visits, this`md, md, handler
      ensures ExifLoad.Result(order, LoadState(), complete)
        == ExifLoad.LoadFile(old(order), old(LoadState()), b, table, ignoreUnknown)
      ensures complete && HasNote(contents) ==> md == (if handler != null then handler else old(md))
      ensures complete && HasNote(contents) && md != null ==>
        md.Value() == Interpreted(old(if handler != null then handler.Value() else if md != null then md.Value()
          else NO_NOTE),
                                  order, offsetMnote, ExifLoad.FindExif(b).value)
      ensures !(complete && HasNote(contents)) ==>
        md == old(md) && (md != null ==> md.Value() == old(if md == null then NO_NOTE else md.Value()))
    {
      hide ExifLoad.LoadBlock, ExifLoad.Search, TagTable.ValidTable, Interpreted, HasNote;
      var found := FindExif(b);
      if found.None? {
        return false;
      }
      var d := ExifLoad.Capped(found.value);
      var declared := ExifLoad.DeclaredOrder(d);
      if declared.None? {
        return false;
      }
      order := declared.value;
      complete := LoadBlock(d);
      if complete {
        InterpretMakerNote(found.value, handler);
      }
    }

    /** exif_data_set_byte_order. */
    method SetByteOrder(o: ByteOrder)
      requires AllSized(contents)
      modifies this`order, this`contents, md
      ensures order == o && contents == old(if o == order then contents else SwitchedContents(contents, order, o))
      ensures md != null ==>
        md.Value() == old(if md == null then NO_NOTE else if o == order then md.Value()
          else MakerNoteOrder.SwitchedNote(md.Value(), o))
    {
      hide Switched;
      if o == order {
        return;
      }
      var c0 := SwitchEntries(contents.ifd0, order, o);
      var c1 := SwitchEntries(contents.ifd1, order, o);
      var e := SwitchEntries(contents.exif, order, o);
      var g := SwitchEntries(contents.gps, order, o);
      var p := SwitchEntries(contents.interop, order, o);
      contents := Contents(c0, c1, e, g, p);
      order := o;
      if md != null {
        md.SetByteOrder(o);
      }
    }
  }

  lemma {:induction false} ContentIs(st: ExifLoad.State, ifd: Ifd, x: ExifLoad.Input, at: nat, path: seq<nat>)
    requires ExifLoad.ValidInput(x)
    ensures ExifLoad.LoadContent(st, ifd, x, at, path)
         == if ExifLoad.PathCost(path) > ExifLoad.MAX_COST || CheckOverflow(at, |x.d|, 2) then st
            else
              var n := ExifLoad.RecordCount(x, at);
              var s := st.(visits := st.visits + [ExifLoad.Visit(ifd, at, n, path)]);
              ExifLoad.LoadRecords(ExifLoad.Loop(s, 0, 0, false), ifd, x, at + 2, n, 0, path)
  {
    hide ExifLoad.LoadRecords, ExifLoad.PathCost, ExifLoad.RecordCount, TagTable.ValidTable;
  }

  lemma {:induction false} RecordsAre(l: ExifLoad.Loop, ifd: Ifd, x: ExifLoad.Input, at: nat, n: nat, k: nat,
                                      path: seq<nat>)
    requires ExifLoad.ValidInput(x) && k < n && at + 12 * n <= |x.d| && !l.stop
    ensures ExifLoad.LoadRecords(l, ifd, x, at, n, k, path)
         == ExifLoad.LoadRecords(ExifLoad.StepRecord(l, ifd, x, at, n, k, path), ifd, x, at, n, k + 1, path)
  {
    hide ExifLoad.StepRecord, TagTable.ValidTable;
  }

  lemma {:induction false} RecordsEnd(l: ExifLoad.Loop, ifd: Ifd, x: ExifLoad.Input, at: nat, n: nat, k: nat,
                                      path: seq<nat>)
    requires ExifLoad.ValidInput(x) && k <= n && at + 12 * n <= |x.d| && (k == n || l.stop)
    ensures ExifLoad.LoadRecords(l, ifd, x, at, n, k, path) == l.st
  {
    hide ExifLoad.StepRecord, TagTable.ValidTable;
  }

  lemma {:induction false} CostOfStep(path: seq<nat>, n: nat)
    ensures ExifLoad.PathCost(path + [n]) == ExifLoad.PathCost(path) + ExifLoad.LevelCost(n)
  {
    hide ExifLoad.LevelCost;
    assert (path + [n])[..|path|] == path;
  }
}
