/** The repairs as the program makes them, on a directory's list of entries. */
module RepairObject {
  import opened Bytes
  import opened ExifTypes
  import opened TagTable
  import opened EntryFix
  import opened ContentFix

  // ---- One entry ----

  /** exif_get_short_convert. */
  method ConvertShort(e: Entry, i: nat, order: ByteOrder) returns (v: int)
    requires Convertible(e.format) && Sized(e) && i < e.components
    ensures v == ShortOf(e, i, order)
  {
    hide GetShort, GetLong;
    if e.format == FMT_LONG || e.format == FMT_SLONG {
      v := GetLong(e.data, i * 4, order) % U16;
    } else if e.format == FMT_SSHORT {
      v := GetShort(e.data, i * 2, order);
    } else {
      v := e.data[i];
    }
  }

  /** The loop that builds the new value. */
  method ConvertToShorts(e: Entry, order: ByteOrder) returns (d: bytes)
    requires Convertible(e.format) && Sized(e)
    ensures d == Shorts(e, e.components, order)
  {
    hide ShortDigits, ShortOf, Sized;
    d := [];
    for i := 0 to e.components
      invariant d == Shorts(e, i, order)
    {
      var v := ConvertShort(e, i, order);
      d := d + ShortDigits(v, order);
    }
  }

  /** How much of a comment's start is empty: zeros, or else spaces. */
  method CountBlank(d: bytes) returns (i: nat)
    ensures i == Blank(d)
  {
    i := 0;
    while i < |d| && d[i] == 0
      invariant i <= |d| && LeadingZeros(d, 0) == LeadingZeros(d, i)
    {
      i := i + 1;
    }
    if i == 0 {
      while i < |d| && d[i] == 0x20
        invariant i <= |d| && LeadingSpaces(d, 0) == LeadingSpaces(d, i)
      {
        i := i + 1;
      }
    }
  }

  /** The comment's bytes after the repair. */
  method FixComment(d: bytes) returns (r: bytes)
    ensures r == Comment(d)
  {
    hide HasCode, Blank;
    r := d;
    if |r| >= 8 && r[0] == 0 {
      r := Zeros(8) + r[8..];
    }
    if |r| < 8 {
      return ASCII_CODE + r;
    }
    var i := CountBlank(r);
    if 8 <= i < |r| {
      r := ASCII_CODE + r[8..];
    } else if !HasCode(r) {
      r := ASCII_CODE + r;
    }
  }

  /** exif_set_long. */
  method SetLong(b: array<byte>, at: nat, v: int, order: ByteOrder)
    requires at + 4 <= b.Length
    modifies b
    ensures b[..] == Put(old(b[..]), at, LongDigits(v, order))
  {
    hide LongDigits;
    var x := LongDigits(v, order);
    b[at], b[at + 1], b[at + 2], b[at + 3] := x[0], x[1], x[2], x[3];
    assert b[..] == old(b[..at]) + x + old(b[at + 4..]);
  }

  /** The loop that reads every component as a rational of the one kind and writes it back as one of the other. */
  method RewriteRationals(b: array<byte>, n: nat, order: ByteOrder, toSigned: bool)
    requires 8 * n <= b.Length
    modifies b
    ensures b[..] == Rewritten(old(b[..]), n, order, toSigned)
  {
    hide LongDigits, Put, Recast;
    for i := 0 to n
      invariant b[..] == Rewritten(old(b[..]), i, order, toSigned)
    {
      var num := Recast(b[..], 8 * i, order, toSigned);
      var den := Recast(b[..], 8 * i + 4, order, toSigned);
      SetLong(b, 8 * i, num, order);
      SetLong(b, 8 * i + 4, den, order);
    }
  }

  /** The same for a value kept as a sequence. */
  method RewriteValue(d: bytes, n: nat, order: ByteOrder, toSigned: bool) returns (r: bytes)
    requires 8 * n <= |d|
    ensures r == Rewritten(d, n, order, toSigned)
  {
    hide Rewritten;
    var b := new byte[|d|](i requires 0 <= i < |d| => d[i]);
    assert b[..] == d;
    RewriteRationals(b, n, order, toSigned);
    r := b[..];
  }

  /** exif_entry_fix. */
  method FixOne(e: Entry, order: ByteOrder) returns (r: Entry)
    requires Sized(e)
    ensures r == FixEntry(e, order)
  {
    hide Comment, Shorts, Rewritten, NeedsShort, NeedsRational, NeedsSRational;
    r := e;
    if NeedsShort(e.tag) {
      if Convertible(e.format) && e.components > 0 {
        var d := ConvertToShorts(e, order);
        r := Entry(e.tag, FMT_SHORT, e.components, d);
      }
    } else if NeedsRational(e.tag) {
      if e.format == FMT_SRATIONAL {
        var d := RewriteValue(e.data, e.components, order, false);
        r := r.(format := FMT_RATIONAL, data := d);
      }
    } else if NeedsSRational(e.tag) {
      if e.format == FMT_RATIONAL {
        var d := RewriteValue(e.data, e.components, order, true);
        r := r.(format := FMT_SRATIONAL, data := d);
      }
    } else if e.tag == TAG_USER_COMMENT {
      CommentMeaning(e.data);
      var d := FixComment(e.data);
      r := Entry(e.tag, FMT_UNDEFINED, e.components + (|d| - |e.data|), d);
    }
  }

  // ---- One directory ----

  class ExifContent {
    var entries: seq<Entry>

    constructor (es: seq<Entry>)
      ensures entries == es
    {
      entries := es;
    }

    /** exif_content_remove_entry: the entries behind move up, the last of them by way of a temporary. */
    method RemoveEntry(i: nat)
      requires i < |entries|
      modifies this`entries
      ensures entries == Without(old(entries), i)
    {
      var n := |entries|;
      var temp := entries[n - 1];
      var t := entries[..n - 1];
      if i != n - 1 {
        t := t[..i] + t[i + 1..] + [temp];
      }
      assert t == entries[..i] + entries[i + 1..];
      entries := t;
    }

    /** exif_content_foreach_entry with exif_entry_fix. */
    method FixEntries(order: ByteOrder)
      requires AllSized(entries)
      modifies this`entries
      ensures entries == FixAll(old(entries), order)
    {
      hide FixEntry, Sized;
      ghost var es := entries;
      for i := 0 to |entries|
        invariant |entries| == |es|
        invariant forall k :: 0 <= k < i ==> Sized(es[k]) && entries[k] == FixEntry(es[k], order)
        invariant forall k :: i <= k < |es| ==> entries[k] == es[k]
      {
        var e := FixOne(entries[i], order);
        entries := entries[i := e];
      }
      assert entries == FixAll(es, order);
    }

    /** exif_content_foreach_entry with remove_not_recorded: the list shrinks under the loop. */
    method SweepOnce(s: Setting)
      requires ValidTable(s.table)
      modifies this`entries
      ensures entries == Sweep(s, old(entries), 0)
    {
      hide ValidTable, SupportLevel;
      var i := 0;
      while i < |entries|
        invariant 0 <= i <= |entries| + 1
        invariant Sweep(s, old(entries), 0) == (if i <= |entries| then Sweep(s, entries, i) else entries)
        decreases |entries| + 1 - i
      {
        var support := SupportLevelInIfd(s.table, entries[i].tag, s.ifd, s.dt);
        if support == NotRecorded {
          RemoveEntry(i);
        }
        i := i + 1;
      }
    }

    /** The loop around the passes. */
    method RemoveNotRecorded(s: Setting)
      requires ValidTable(s.table)
      modifies this`entries
      ensures entries == Removed(s, old(entries))
    {
      hide ValidTable, Sweep;
      var again := true;
      while again
        invariant Removed(s, old(entries)) == (if again then Removed(s, entries) else entries)
        decreases |entries|, if again then 1 else 0
      {
        var num := |entries|;
        SweepOnce(s);
        again := num != |entries|;
      }
    }

    /** exif_content_add_entry of a new entry, whose tag is still 0, and its initialization if it was taken. */
    method AddInitialized(s: Setting, tag: int)
      modifies this`entries
      ensures entries == AddNew(s, old(entries), tag)
    {
      hide HasTag;
      var there := Find(entries, 0);
      if !there {
        entries := entries + [s.initial(tag)];
      }
    }

    /** The loop over the tag table, its terminator included. */
    method AddMissing(s: Setting)
      requires ValidTable(s.table)
      modifies this`entries
      ensures entries == AddMandatory(s, old(entries), 0)
    {
      hide ValidTable, SupportLevel, HasTag, AddNew;
      for i := 0 to |s.table| + 1
        invariant AddMandatory(s, old(entries), 0) == AddMandatory(s, entries, i)
      {
        var t := if i < |s.table| then s.table[i].tag else 0;
        var support := SupportLevelInIfd(s.table, t, s.ifd, s.dt);
        if support == Mandatory {
          var there := Find(entries, t);
          if !there {
            AddInitialized(s, t);
          }
        }
      }
    }

    /** exif_content_fix. */
    method Fix(s: Setting)
      requires ValidTable(s.table) && AllSized(entries)
      modifies this`entries
      ensures entries == Fixed(s, old(entries))
    {
      hide ValidTable, AllSized, FixAll, Removed, AddMandatory;
      FixEntries(s.order);
      RemoveNotRecorded(s);
      AddMissing(s);
    }

    /** The loop that empties IFD 1 when there is no thumbnail. */
    method RemoveAll()
      modifies this`entries
      ensures entries == []
    {
      while |entries| > 0
        decreases |entries|
      {
        RemoveEntry(|entries| - 1);
      }
    }
  }

  // ---- All directories ----

  /** What the repairs of the five directories share. */
  datatype DataSetting = DataSetting(table: seq<Row>, dt: DataType, order: ByteOrder, initial: (Ifd, int) -> Entry)

  function SettingFor(d: DataSetting, i: Ifd): Setting
  {
    Setting(d.table, i, d.dt, d.order, tag => d.initial(i, tag))
  }

  /** fix_func on one directory. */
  function FixedDir(d: DataSetting, i: Ifd, es: seq<Entry>, thumb: bytes): seq<Entry>
    requires ValidTable(d.table) && AllSized(es)
  {
    if i.Ifd1? && thumb == [] then [] else Fixed(SettingFor(d, i), es)
  }

  method FixDir(d: DataSetting, i: Ifd, es: seq<Entry>, thumb: bytes) returns (r: seq<Entry>)
    requires ValidTable(d.table) && AllSized(es)
    ensures r == FixedDir(d, i, es, thumb)
  {
    hide ValidTable, AllSized, Fixed;
    var c := new ExifContent(es);
    if i.Ifd1? && thumb == [] {
      c.RemoveAll();
    } else {
      c.Fix(SettingFor(d, i));
    }
    r := c.entries;
  }

  predicate AllSizedIn(c: Contents)
  {
    AllSized(c.ifd0) && AllSized(c.ifd1) && AllSized(c.exif) && AllSized(c.gps) && AllSized(c.interop)
  }

  function FixedContents(d: DataSetting, c: Contents, thumb: bytes): Contents
    requires ValidTable(d.table) && AllSizedIn(c)
  {
    Contents(FixedDir(d, Ifd0, c.ifd0, thumb), FixedDir(d, Ifd1, c.ifd1, thumb), FixedDir(d, ExifIfd, c.exif, thumb),
             FixedDir(d, GpsIfd, c.gps, thumb), FixedDir(d, InteropIfd, c.interop, thumb))
  }

  /** exif_data_fix. */
  method FixData(d: DataSetting, c: Contents, thumb: bytes) returns (r: Contents)
    requires ValidTable(d.table) && AllSizedIn(c)
    ensures r == FixedContents(d, c, thumb)
  {
    hide ValidTable, AllSized, FixedDir;
    var a := FixDir(d, Ifd0, c.ifd0, thumb);
    var b := FixDir(d, Ifd1, c.ifd1, thumb);
    var e := FixDir(d, ExifIfd, c.exif, thumb);
    var g := FixDir(d, GpsIfd, c.gps, thumb);
    var p := FixDir(d, InteropIfd, c.interop, thumb);
    r := Contents(a, b, e, g, p);
  }

  /** Each directory is repaired by its own rules; IFD 1 is emptied when there is no thumbnail. */
  lemma {:induction false} ContentsExactly(d: DataSetting, c: Contents, thumb: bytes, i: Ifd)
    requires ValidTable(d.table) && AllSizedIn(c)
    ensures AllSized(c.Of(i))
    ensures FixedContents(d, c, thumb).Of(i)
         == if i == Ifd1 && thumb == [] then [] else Fixed(SettingFor(d, i), c.Of(i))
    ensures var s := SettingFor(d, i);
      && s.table == d.table && s.ifd == i && s.dt == d.dt && s.order == d.order
      && forall tag :: s.initial(tag) == d.initial(i, tag)
  {
    hide ValidTable, AllSized, Fixed;
  }

  ghost predicate DirRepairable(d: DataSetting, i: Ifd, es: seq<Entry>)
    requires ValidTable(d.table)
  {
    ValidSetting(SettingFor(d, i)) && Repairable(SettingFor(d, i), es)
  }

  lemma {:induction false} FixedDirTwice(d: DataSetting, i: Ifd, es: seq<Entry>, thumb: bytes)
    requires ValidTable(d.table) && (forall k :: 0 <= k < |d.table| ==> d.table[k].tag >= 0)
    requires AllSized(es) && DirRepairable(d, i, es)
    ensures AllSized(FixedDir(d, i, es, thumb))
    ensures FixedDir(d, i, FixedDir(d, i, es, thumb), thumb) == FixedDir(d, i, es, thumb)
  {
    hide ValidTable, Fixed, ValidSetting, Repairable;
    FixedTwice(SettingFor(d, i), es);
  }

  /** Repairing all directories twice is repairing them once. */
  lemma {:induction false} FixedContentsTwice(d: DataSetting, c: Contents, thumb: bytes)
    requires ValidTable(d.table) && (forall k :: 0 <= k < |d.table| ==> d.table[k].tag >= 0) && AllSizedIn(c)
    requires DirRepairable(d, Ifd0, c.ifd0) && DirRepairable(d, Ifd1, c.ifd1) && DirRepairable(d, ExifIfd, c.exif)
    requires DirRepairable(d, GpsIfd, c.gps) && DirRepairable(d, InteropIfd, c.interop)
    ensures AllSizedIn(FixedContents(d, c, thumb))
    ensures FixedContents(d, FixedContents(d, c, thumb), thumb) == FixedContents(d, c, thumb)
  {
    hide ValidTable, FixedDir, AllSized, DirRepairable;
    FixedDirTwice(d, Ifd0, c.ifd0, thumb);
    FixedDirTwice(d, Ifd1, c.ifd1, thumb);
    FixedDirTwice(d, ExifIfd, c.exif, thumb);
    FixedDirTwice(d, GpsIfd, c.gps, thumb);
    FixedDirTwice(d, InteropIfd, c.interop, thumb);
  }
}
