/** Writing directory records into a buffer, field by field. */
module TiffWriter {
  import opened Bytes
  import opened Tiff

  /** Overwriting the block `f` between `a` and `c`. */
  lemma {:induction false} PutAt(b: bytes, a: bytes, f: bytes, c: bytes, x: bytes)
    requires b == a + f + c && |x| == |f|
    ensures |a| + |x| <= |b| && Put(b, |a|, x) == a + x + c
  {
    PutMiddle(a, f, c, x);
  }

  /** Tag, format and component count of a record, before its value field. */
  ghost function Head(tag: int, format: int, components: int, order: ByteOrder): (h: bytes)
    ensures |h| == 8
  {
    EncShort(tag, order) + EncShort(format, order) + EncLong(components, order)
  }

  method PutShort(b: bytes, at: nat, v: int, order: ByteOrder, ghost a: bytes, ghost f: bytes, ghost c: bytes)
    returns (r: bytes)
    requires b == a + f + c && |a| == at && |f| == 2
    ensures r == a + EncShort(v, order) + c
  {
    hide ShortDigits, EncShort;
    ShortDigitsMeetSpec(v, order);
    PutAt(b, a, f, c, EncShort(v, order));
    r := Put(b, at, ShortDigits(v, order));
  }

  method PutLong(b: bytes, at: nat, v: int, order: ByteOrder, ghost a: bytes, ghost f: bytes, ghost c: bytes)
    returns (r: bytes)
    requires b == a + f + c && |a| == at && |f| == 4
    ensures r == a + EncLong(v, order) + c
  {
    hide LongDigits, EncLong;
    LongDigitsMeetSpec(v, order);
    PutAt(b, a, f, c, EncLong(v, order));
    r := Put(b, at, LongDigits(v, order));
  }

  /** Writes tag, format and component count over the eight bytes `f`. */
  method PutHead(b: bytes, at: nat, tag: int, format: int, components: int, order: ByteOrder, ghost a: bytes,
                 ghost f: bytes, ghost c: bytes) returns (r: bytes)
    requires b == a + f + c && |a| == at && |f| == 8
    ensures r == a + Head(tag, format, components, order) + c
  {
    hide EncShort, EncLong;
    ghost var f0, f1, f2 := f[..2], f[2..4], f[4..];
    assert f == f0 + f1 + f2;
    ghost var x, y, z := EncShort(tag, order), EncShort(format, order), EncLong(components, order);
    assert b == a + f0 + (f1 + f2 + c);
    r := PutShort(b, at, tag, order, a, f0, f1 + f2 + c);
    assert r == (a + x) + f1 + (f2 + c);
    r := PutShort(r, at + 2, format, order, a + x, f1, f2 + c);
    assert r == (a + x + y) + f2 + c;
    r := PutLong(r, at + 4, components, order, a + x + y, f2, c);
    assert a + x + y + z + c == a + (x + y + z) + c;
  }

  lemma {:induction false} RecordIs(i: Item, order: ByteOrder)
    ensures Record(i, order) == Head(i.slot.tag, i.slot.format, i.slot.components, order)
      + ValueField(i.slot.payload, i.ptr, order)
  {
  }
}
