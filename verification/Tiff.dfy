/**
 The 12-byte directory record of Section 2 of TIFF 6.0, shared by the EXIF directories and
 by every maker note.
 */
module Tiff {
  import opened Bytes

  /** What one record says; `payload` is the value itself. */
  datatype Slot = Slot(tag: int, format: int, components: nat, payload: bytes)

  /** A slot with the pointer its record holds when the payload, over four bytes, lies elsewhere. */
  datatype Item = Item(slot: Slot, ptr: int)

  ghost function ValueField(p: bytes, ptr: int, order: ByteOrder): (x: bytes)
    ensures |x| == 4
  {
    if |p| > 4 then EncLong(ptr, order) else p + Zeros(4 - |p|)
  }

  ghost function Record(i: Item, order: ByteOrder): (r: bytes)
    ensures |r| == 12
  {
    EncShort(i.slot.tag, order) + EncShort(i.slot.format, order) + EncLong(i.slot.components, order)
    + ValueField(i.slot.payload, i.ptr, order)
  }

  lemma {:induction false} FourBlocks(t: bytes, pos: nat, a: bytes, b: bytes, c: bytes, d: bytes)
    requires LiesAt(t, pos, a + b + c + d)
    ensures LiesAt(t, pos, a) && LiesAt(t, pos + |a|, b) && LiesAt(t, pos + |a| + |b|, c)
    ensures LiesAt(t, pos + |a| + |b| + |c|, d)
  {
    LiesConcat(t, pos, a + b + c, d);
    LiesConcat(t, pos, a + b, c);
    LiesConcat(t, pos, a, b);
  }

  /** The four fields of a record, as blocks. */
  lemma {:induction false} RecordBlocks(i: Item, order: ByteOrder, t: bytes, pos: nat)
    requires LiesAt(t, pos, Record(i, order))
    ensures LiesAt(t, pos, EncShort(i.slot.tag, order))
    ensures LiesAt(t, pos + 2, EncShort(i.slot.format, order))
    ensures LiesAt(t, pos + 4, EncLong(i.slot.components, order))
    ensures LiesAt(t, pos + 8, ValueField(i.slot.payload, i.ptr, order))
  {
    FourBlocks(t, pos, EncShort(i.slot.tag, order), EncShort(i.slot.format, order), EncLong(i.slot.components, order),
               ValueField(i.slot.payload, i.ptr, order));
  }

  lemma {:induction false} ShortAt(t: bytes, pos: nat, v: int, order: ByteOrder)
    requires LiesAt(t, pos, EncShort(v, order))
    ensures GetShort(t, pos, order) == v % U16
  {
    GetShortAt(t, pos, EncShort(v, order), order);
  }

  lemma {:induction false} LongAt(t: bytes, pos: nat, v: int, order: ByteOrder)
    requires LiesAt(t, pos, EncLong(v, order))
    ensures GetLong(t, pos, order) == v % U32
  {
    GetLongAt(t, pos, EncLong(v, order), order);
  }

  lemma {:induction false} ValueFieldAt(p: bytes, ptr: int, order: ByteOrder, t: bytes, pos: nat)
    requires LiesAt(t, pos, ValueField(p, ptr, order))
    ensures |p| > 4 ==> GetLong(t, pos, order) == ptr % U32
    ensures |p| <= 4 ==> LiesAt(t, pos, p)
  {
    if |p| > 4 {
      LongAt(t, pos, ptr, order);
    } else {
      LiesConcat(t, pos, p, Zeros(4 - |p|));
    }
  }

  /** The four numbers a loader reads from the record at `pos`. */
  datatype Fields = Fields(tag: int, format: int, components: nat, stored: nat)

  function ReadFields(t: bytes, pos: nat, order: ByteOrder): (f: Fields)
    requires pos + 12 <= |t|
  {
    Fields(GetShort(t, pos, order), GetShort(t, pos + 2, order), GetLong(t, pos + 4, order), GetLong(t, pos + 8, order))
  }

  /** `f` is what a loader reads from the record of `i` at `pos` of `t`. */
  predicate FieldsOf(f: Fields, i: Item, t: bytes, pos: nat)
  {
    && f.tag == i.slot.tag % U16
    && f.format == i.slot.format % U16
    && f.components == i.slot.components % U32
    && if |i.slot.payload| > 4 then f.stored == i.ptr % U32 else LiesAt(t, pos + 8, i.slot.payload)
  }

  /** The fields of a record are read back wherever the record lies. */
  lemma {:induction false} RecordFields(i: Item, order: ByteOrder, t: bytes, pos: nat)
    requires LiesAt(t, pos, Record(i, order))
    ensures pos + 12 <= |t| && FieldsOf(ReadFields(t, pos, order), i, t, pos)
  {
    RecordBlocks(i, order, t, pos);
    ShortAt(t, pos, i.slot.tag, order);
    ShortAt(t, pos + 2, i.slot.format, order);
    LongAt(t, pos + 4, i.slot.components, order);
    ValueFieldAt(i.slot.payload, i.ptr, order, t, pos + 8);
  }

  // ---- Runs of records ----

  /** The first `n` records of a directory, one after the other. */
  ghost function Records(xs: seq<Item>, n: nat, order: ByteOrder): (b: bytes)
    requires n <= |xs|
    ensures |b| == 12 * n
  {
    if n == 0 then [] else Records(xs, n - 1, order) + Record(xs[n - 1], order)
  }

  lemma {:induction false} LiesLeft(a: bytes, r: bytes, at: nat, x: bytes)
    requires LiesAt(a, at, x)
    ensures LiesAt(a + r, at, x)
  {
  }

  lemma {:induction false} LiesRight(a: bytes, r: bytes)
    ensures LiesAt(a + r, |a|, r)
  {
  }

  /** Record `k` of a run lies 12 * k bytes into it. */
  lemma {:induction false} RecordsAt(xs: seq<Item>, n: nat, order: ByteOrder, k: nat)
    requires k < n <= |xs|
    ensures LiesAt(Records(xs, n, order), 12 * k, Record(xs[k], order))
  {
    if k < n - 1 {
      RecordsAt(xs, n - 1, order, k);
      LiesLeft(Records(xs, n - 1, order), Record(xs[n - 1], order), 12 * k, Record(xs[k], order));
    } else {
      LiesRight(Records(xs, n - 1, order), Record(xs[n - 1], order));
    }
  }

  // ---- Placing values ----

  function OutOfLine(p: bytes, padded: bool): (v: bytes)
  {
    if |p| <= 4 then [] else if padded then Pad(p) else p
  }

  /** The payloads over four bytes among the first `n` slots, one after the other. */
  function Values(slots: seq<Slot>, n: nat, padded: bool): (v: bytes)
    requires n <= |slots|
  {
    if n == 0 then [] else Values(slots, n - 1, padded) + OutOfLine(slots[n - 1].payload, padded)
  }

  /** The slots with their pointers, the first value lying at `at`. */
  function Items(slots: seq<Slot>, at: int, padded: bool): (xs: seq<Item>)
    ensures |xs| == |slots|
  {
    seq(|slots|, k requires 0 <= k < |slots| => Item(slots[k], at + |Values(slots, k, padded)|))
  }

  lemma {:induction false} RecordsNext(items: seq<Item>, i: nat, order: ByteOrder)
    requires i < |items|
    ensures Records(items, i + 1, order) == Records(items, i, order) + Record(items[i], order)
  {
  }

  lemma {:induction false} ValuesNext(slots: seq<Slot>, i: nat, padded: bool)
    requires i < |slots|
    ensures Values(slots, i + 1, padded) == Values(slots, i, padded) + OutOfLine(slots[i].payload, padded)
  {
  }

  lemma {:induction false} ValueLies(p: bytes, v: bytes, padded: bool)
    requires |p| > 4
    ensures LiesAt(v + OutOfLine(p, padded), |v|, p)
  {
  }

  /** The value of slot `k` lies where its pointer says, whatever slots follow. */
  lemma {:induction false} ValuesAt(slots: seq<Slot>, n: nat, padded: bool, k: nat)
    requires k < n <= |slots| && |slots[k].payload| > 4
    ensures LiesAt(Values(slots, n, padded), |Values(slots, k, padded)|, slots[k].payload)
  {
    if k < n - 1 {
      ValuesAt(slots, n - 1, padded, k);
      LiesLeft(Values(slots, n - 1, padded), OutOfLine(slots[n - 1].payload, padded), |Values(slots, k, padded)|,
        slots[k].payload);
    } else {
      ValueLies(slots[k].payload, Values(slots, k, padded), padded);
    }
  }
}
