/** exif_entry_fix: bringing one entry into the form the specification demands. */
module EntryFix {
  import opened Bytes
  import opened ExifTypes

  const TAG_USER_COMMENT := 0x9286

  /** The tags whose values must be shorts. */
  predicate NeedsShort(tag: int)
  {
    || tag == 0x0212 || tag == 0x9214 || tag == 0xa001 || tag == 0x011c || tag == 0xa217 || tag == 0x0112
    || tag == 0x0213 || tag == 0x0106 || tag == 0xa401 || tag == 0xa402 || tag == 0xa403 || tag == 0xa406
    || tag == 0xa407 || tag == 0xa409 || tag == 0xa408 || tag == 0xa40a || tag == 0x8827
  }

  predicate NeedsRational(tag: int)
  {
    tag == 0x829d || tag == 0x9202 || tag == 0x829a || tag == 0x920a
  }

  predicate NeedsSRational(tag: int)
  {
    tag == 0x9204 || tag == 0x9203 || tag == 0x9201
  }

  const ASCII_CODE: bytes := [0x41, 0x53, 0x43, 0x49, 0x49, 0, 0, 0]
  const UNICODE_CODE: bytes := [0x55, 0x4e, 0x49, 0x43, 0x4f, 0x44, 0x45, 0]
  const JIS_CODE: bytes := [0x4a, 0x49, 0x53, 0, 0, 0, 0, 0]

  /** One of the four character codes of section 4.6.5 of Exif 2.2. */
  predicate HasCode(d: bytes)
  {
    LiesAt(d, 0, ASCII_CODE) || LiesAt(d, 0, UNICODE_CODE) || LiesAt(d, 0, JIS_CODE) || LiesAt(d, 0, Zeros(8))
  }

  /** The entry has all the data its format and component count speak of. */
  predicate Sized(e: Entry)
  {
    ValueBytes(e.format, e.components) <= |e.data|
  }

  // ---- Shorts ----

  predicate Convertible(format: int)
  {
    format == FMT_LONG || format == FMT_SLONG || format == FMT_BYTE || format == FMT_SBYTE || format == FMT_SSHORT
  }

  /** Component `i` as a short. */
  function ShortOf(e: Entry, i: nat, order: ByteOrder): (v: int)
    requires Convertible(e.format) && Sized(e) && i < e.components
    ensures 0 <= v < U16
  {
    if e.format == FMT_LONG || e.format == FMT_SLONG then GetLong(e.data, 4 * i, order) % U16
    else if e.format == FMT_SSHORT then GetShort(e.data, 2 * i, order)
    else e.data[i]
  }

  /** The first `n` components as shorts. */
  function Shorts(e: Entry, n: nat, order: ByteOrder): (d: bytes)
    requires Convertible(e.format) && Sized(e) && n <= e.components
    ensures |d| == 2 * n
  {
    if n == 0 then [] else Shorts(e, n - 1, order) + ShortDigits(ShortOf(e, n - 1, order), order)
  }

  // ---- Rationals ----

  /** A 32-bit pattern read as a signed number. */
  function Signed(v: int): (r: int)
    requires 0 <= v < U32
    ensures -0x8000_0000 <= r < 0x8000_0000
  {
    if v >= 0x8000_0000 then v - U32 else v
  }

  /** A numerator or denominator read as the one kind of number and assigned to the other. */
  function Recast(d: bytes, at: nat, order: ByteOrder, toSigned: bool): (v: int)
    requires at + 4 <= |d|
  {
    var u := GetLong(d, at, order);
    if toSigned then Signed(u) else Signed(u) % U32
  }

  /** Component `i` read as a rational of the one kind and written back as one of the other. */
  function RewrittenOne(d: bytes, i: nat, order: ByteOrder, toSigned: bool): (r: bytes)
    requires 8 * i + 8 <= |d|
    ensures |r| == |d|
  {
    var num, den := Recast(d, 8 * i, order, toSigned), Recast(d, 8 * i + 4, order, toSigned);
    Put(Put(d, 8 * i, LongDigits(num, order)), 8 * i + 4, LongDigits(den, order))
  }

  /** The first `n` components, one after the other. */
  function Rewritten(d: bytes, n: nat, order: ByteOrder, toSigned: bool): (r: bytes)
    requires 8 * n <= |d|
    ensures |r| == |d|
  {
    if n == 0 then d else RewrittenOne(Rewritten(d, n - 1, order, toSigned), n - 1, order, toSigned)
  }

  // ---- The user comment ----

  function LeadingZeros(d: bytes, i: nat): (n: nat)
    requires i <= |d|
    ensures i <= n <= |d| && (n < |d| ==> d[n] != 0) && forall k :: i <= k < n ==> d[k] == 0
    decreases |d| - i
  {
    if i < |d| && d[i] == 0 then LeadingZeros(d, i + 1) else i
  }

  function LeadingSpaces(d: bytes, i: nat): (n: nat)
    requires i <= |d|
    ensures i <= n <= |d| && (n < |d| ==> d[n] != 0x20) && forall k :: i <= k < n ==> d[k] == 0x20
    decreases |d| - i
  {
    if i < |d| && d[i] == 0x20 then LeadingSpaces(d, i + 1) else i
  }

  /** How much of the start is empty: zeros, or else spaces. */
  function Blank(d: bytes): (n: nat)
    ensures n <= |d|
  {
    if LeadingZeros(d, 0) == 0 then LeadingSpaces(d, 0) else LeadingZeros(d, 0)
  }

  /** A comment that starts with a zero byte has its whole code area zeroed. */
  function Cleared(d: bytes): (r: bytes)
    ensures |r| == |d|
  {
    if |d| >= 8 && d[0] == 0 then Zeros(8) + d[8..] else d
  }

  /** The comment's bytes after the repair. */
  function Comment(d: bytes): (r: bytes)
  {
    var c := Cleared(d);
    if |c| < 8 then ASCII_CODE + c
    else if 8 <= Blank(c) < |c| then ASCII_CODE + c[8..]
    else if !HasCode(c) then ASCII_CODE + c
    else c
  }

  // ---- The repair ----

  function FixEntry(e: Entry, order: ByteOrder): (r: Entry)
    requires Sized(e)
    ensures r.tag == e.tag
  {
    if NeedsShort(e.tag) then
      if Convertible(e.format) && e.components > 0
        then Entry(e.tag, FMT_SHORT, e.components, Shorts(e, e.components, order)) else e
    else if NeedsRational(e.tag) then
      if e.format == FMT_SRATIONAL
        then e.(format := FMT_RATIONAL, data := Rewritten(e.data, e.components, order, false)) else e
    else if NeedsSRational(e.tag) then
      if e.format == FMT_RATIONAL then e.(format := FMT_SRATIONAL, data := Rewritten(e.data, e.components, order, true))
        else e
    else if e.tag == TAG_USER_COMMENT then
      var d := Comment(e.data);
      Entry(e.tag, FMT_UNDEFINED, e.components + (|d| - |e.data|), d)
    else e
  }

  // ---- What it does ----

  lemma {:induction false} ShortsAt(e: Entry, n: nat, order: ByteOrder, i: nat)
    requires Convertible(e.format) && Sized(e) && i < n <= e.components
    ensures GetShort(Shorts(e, n, order), 2 * i, order) == ShortOf(e, i, order)
  {
    hide ShortOf, ShortDigits, Sized;
    var a, b := Shorts(e, n - 1, order), ShortDigits(ShortOf(e, n - 1, order), order);
    if i < n - 1 {
      ShortsAt(e, n - 1, order, i);
    } else {
      ShortRoundTrip(ShortOf(e, i, order), order);
      assert (a + b)[2 * i] == b[0] && (a + b)[2 * i + 1] == b[1];
    }
  }

  /** Every component keeps its value modulo 2^16; bytes keep theirs. */
  lemma {:induction false} ConversionKeeps(e: Entry, order: ByteOrder, i: nat)
    requires Sized(e) && NeedsShort(e.tag) && Convertible(e.format) && i < e.components
    ensures var r := FixEntry(e, order);
      && r.format == FMT_SHORT && r.components == e.components && |r.data| == 2 * r.components
      && (e.format == FMT_LONG || e.format == FMT_SLONG ==>
        4 * i + 4 <= |e.data| && GetShort(r.data, 2 * i, order) == GetLong(e.data, 4 * i, order) % U16)
      && (e.format == FMT_SSHORT ==>
        2 * i + 2 <= |e.data| && GetShort(r.data, 2 * i, order) == GetShort(e.data, 2 * i, order))
      && (e.format == FMT_BYTE || e.format == FMT_SBYTE ==> i < |e.data| && GetShort(r.data, 2 * i, order) == e.data[i])
  {
    hide GetShort, GetLong, Shorts;
    ShortsAt(e, e.components, order, i);
  }

  /** Whichever sign a number is given on the way, its bytes come back. */
  lemma {:induction false} RecastBack(x: bytes, order: ByteOrder, toSigned: bool)
    requires |x| == 4
    ensures LongDigits(Recast(x, 0, order, toSigned), order) == x
  {
    hide Digit, LongDigits, GetLong;
    var v := Recast(x, 0, order, toSigned);
    LongRoundTrip(v, order);
    assert v % U32 == GetLong(x, 0, order);
    LongInjective(LongDigits(v, order), x, order);
  }

  lemma {:induction false} PutSame(d: bytes, at: nat, x: bytes)
    requires at + |x| <= |d| && x == d[at..at + |x|]
    ensures Put(d, at, x) == d
  {
  }

  lemma {:induction false} RecastAt(d: bytes, at: nat, order: ByteOrder, toSigned: bool)
    requires at + 4 <= |d|
    ensures Put(d, at, LongDigits(Recast(d, at, order, toSigned), order)) == d
  {
    hide LongDigits, Put, Signed;
    var x := d[at..at + 4];
    assert GetLong(d, at, order) == GetLong(x, 0, order);
    RecastBack(x, order, toSigned);
    PutSame(d, at, x);
  }

  /** Rationals that are read as the one kind and written as the other keep every byte, whatever their signs. */
  lemma {:induction false} RewrittenIsSame(d: bytes, n: nat, order: ByteOrder, toSigned: bool)
    requires 8 * n <= |d|
    ensures Rewritten(d, n, order, toSigned) == d
  {
    hide LongDigits, Put, Recast;
    if n > 0 {
      RewrittenIsSame(d, n - 1, order, toSigned);
      RecastAt(d, 8 * (n - 1), order, toSigned);
      RecastAt(d, 8 * (n - 1) + 4, order, toSigned);
    }
  }

  /** A change between the two kinds of rationals keeps every byte. */
  lemma {:induction false} RationalsKeep(e: Entry, order: ByteOrder)
    requires Sized(e) && (NeedsRational(e.tag) || NeedsSRational(e.tag))
    ensures FixEntry(e, order).data == e.data && FixEntry(e, order).components == e.components
    ensures FixEntry(e, order).format != e.format ==> FormatSize(FixEntry(e, order).format) == FormatSize(e.format)
  {
    hide Rewritten;
    if NeedsRational(e.tag) && e.format == FMT_SRATIONAL {
      RewrittenIsSame(e.data, e.components, order, false);
    }
    if NeedsSRational(e.tag) && e.format == FMT_RATIONAL {
      RewrittenIsSame(e.data, e.components, order, true);
    }
  }

  /** Which tags the repair gives which format: by their numbers in the Exif standard. */
  lemma {:induction false} RepairedTags(tag: int)
    ensures NeedsShort(tag) <==>
      tag in {0x106, 0x112, 0x11c, 0x212, 0x213, 0x8827, 0x9214, 0xa001, 0xa217, 0xa401, 0xa402,
                                         0xa403, 0xa406, 0xa407, 0xa408, 0xa409, 0xa40a}
    ensures NeedsRational(tag) <==> tag in {0x829a, 0x829d, 0x9202, 0x920a}
    ensures NeedsSRational(tag) <==> tag in {0x9201, 0x9203, 0x9204}
  {
  }

  /**
   The format after the repair. Longs, bytes and signed shorts, if there are any, become shorts for the tags that must
   be shorts; the two kinds of rationals become the kind that the tag must have; comments become undefined. Every other
   entry is as it was.
   */
  lemma {:induction false} FormatExactly(e: Entry, order: ByteOrder)
    requires Sized(e)
    ensures NeedsShort(e.tag) && e.format in {1, 4, 6, 8, 9} && e.components > 0 ==> FixEntry(e, order).format == 3
    ensures NeedsShort(e.tag) && (e.format !in {1, 4, 6, 8, 9} || e.components == 0) ==> FixEntry(e, order) == e
    ensures NeedsRational(e.tag) && e.format == 10 ==> FixEntry(e, order).format == 5
    ensures NeedsRational(e.tag) && e.format != 10 ==> FixEntry(e, order) == e
    ensures NeedsSRational(e.tag) && e.format == 5 ==> FixEntry(e, order).format == 10
    ensures NeedsSRational(e.tag) && e.format != 5 ==> FixEntry(e, order) == e
    ensures e.tag == 0x9286 ==> FixEntry(e, order).format == 7
    ensures !NeedsShort(e.tag) && !NeedsRational(e.tag) && !NeedsSRational(e.tag) && e.tag != 0x9286 ==>
      FixEntry(e, order) == e
  {
    hide Comment, Shorts, Rewritten;
  }

  /** All of `d` from `i` up to `n` is `x`. */
  predicate Filled(d: bytes, i: nat, n: nat, x: byte)
  {
    n <= |d| && forall k :: i <= k < n ==> d[k] == x
  }

  lemma {:induction false} ZerosCounted(d: bytes, i: nat, n: nat)
    requires i <= n <= |d| && Filled(d, i, n, 0)
    ensures LeadingZeros(d, i) >= n && (LeadingZeros(d, i) == |d| <==> Filled(d, i, |d|, 0))
    decreases n - i
  {
    if i < n {
      ZerosCounted(d, i + 1, n);
    }
  }

  lemma {:induction false} SpacesCounted(d: bytes, i: nat, n: nat)
    requires i <= n <= |d| && Filled(d, i, n, 0x20)
    ensures LeadingSpaces(d, i) >= n && (LeadingSpaces(d, i) == |d| <==> Filled(d, i, |d|, 0x20))
    decreases n - i
  {
    if i < n {
      SpacesCounted(d, i + 1, n);
    }
  }

  /**
   The comment after the repair, case by case. One of less than eight bytes gets the ASCII code in front of it. One that
   starts with a zero byte has its first eight bytes taken for the code: for the ASCII code if anything but zeros
   follows, and else for an undefined one. So has one that starts with eight blanks before something else. A code that
   is there is left, and any other comment gets one in front of it.
   */
  lemma {:induction false} CommentExactly(d: bytes)
    ensures var ascii: bytes := [0x41, 0x53, 0x43, 0x49, 0x49, 0, 0, 0]; var n := |d|;
      && (n < 8 ==> Comment(d) == ascii + d)
      && (n >= 8 && d[0] == 0 ==> Comment(d) == (if Filled(d, 8, n, 0) then Zeros(8) else ascii) + d[8..])
      && (n >= 8 && Filled(d, 0, 8, 0x20) ==> Comment(d) == if Filled(d, 8, n, 0x20) then ascii + d else ascii + d[8..])
      && (n >= 8 && Coded(d) ==> Comment(d) == d)
      && (n >= 8 && d[0] != 0 && !Filled(d, 0, 8, 0x20) && !Coded(d) ==> Comment(d) == ascii + d)
  {
    hide LeadingZeros, LeadingSpaces, LiesAt, HasCode;
    if |d| >= 8 {
      if d[0] == 0 {
        ZeroComment(d);
      } else if Filled(d, 0, 8, 0x20) {
        BlankComment(d);
      } else if Coded(d) {
        CodedCommentStays(d);
      } else {
        UncodedComment(d);
      }
      NoBlankCode(d);
    }
  }

  /** One of the three printable codes of section 4.6.5 of Exif 2.2: ASCII, UNICODE and JIS. */
  predicate Coded(d: bytes)
  {
    || LiesAt(d, 0, [0x41, 0x53, 0x43, 0x49, 0x49, 0, 0, 0])
    || LiesAt(d, 0, [0x55, 0x4e, 0x49, 0x43, 0x4f, 0x44, 0x45, 0])
    || LiesAt(d, 0, [0x4a, 0x49, 0x53, 0, 0, 0, 0, 0])
  }

  lemma {:induction false} FirstByte(d: bytes, x: bytes)
    requires x != []
    ensures LiesAt(d, 0, x) ==> d != [] && d[0] == x[0]
  {
    if LiesAt(d, 0, x) {
      assert d[0 + 0] == x[0];
    }
  }

  lemma {:induction false} NoBlankCode(d: bytes)
    ensures Coded(d) ==> d != [] && d[0] != 0 && d[0] != 0x20
  {
    hide LiesAt;
    FirstByte(d, [0x41, 0x53, 0x43, 0x49, 0x49, 0, 0, 0]);
    FirstByte(d, [0x55, 0x4e, 0x49, 0x43, 0x4f, 0x44, 0x45, 0]);
    FirstByte(d, [0x4a, 0x49, 0x53, 0, 0, 0, 0, 0]);
  }

  lemma {:induction false} ZeroComment(d: bytes)
    requires |d| >= 8 && d[0] == 0
    ensures Comment(d) == (if Filled(d, 8, |d|, 0) then Zeros(8) else ASCII_CODE) + d[8..]
  {
    hide LeadingZeros, LeadingSpaces, LiesAt;
    var c := Cleared(d);
    ClearedCode(d);
    ZerosCounted(c, 0, 8);
    assert c[8..] == d[8..];
    assert forall k :: 8 <= k < |d| ==> c[k] == d[k];
    assert Filled(c, 0, |c|, 0) <==> Filled(d, 8, |d|, 0);
  }

  lemma {:induction false} BlankComment(d: bytes)
    requires |d| >= 8 && Filled(d, 0, 8, 0x20)
    ensures Comment(d) == if Filled(d, 8, |d|, 0x20) then ASCII_CODE + d else ASCII_CODE + d[8..]
  {
    hide LeadingSpaces, LiesAt, HasCode;
    SpacesCounted(d, 0, 8);
    CodesAre(d);
    assert LeadingZeros(d, 0) == 0;
    assert Filled(d, 0, |d|, 0x20) <==> Filled(d, 8, |d|, 0x20);
  }

  lemma {:induction false} CodesAre(d: bytes)
    ensures HasCode(d) ==> Coded(d) || (d != [] && d[0] == 0)
    ensures Coded(d) ==> d != [] && d[0] != 0x20 && d[0] != 0
  {
    hide LiesAt;
    FirstByte(d, Zeros(8));
    NoBlankCode(d);
  }

  lemma {:induction false} UncodedComment(d: bytes)
    requires |d| >= 8 && d[0] != 0 && !Filled(d, 0, 8, 0x20) && !Coded(d)
    ensures Comment(d) == ASCII_CODE + d
  {
    hide LiesAt, HasCode;
    CodesAre(d);
    assert LeadingZeros(d, 0) == 0;
    FewSpaces(d, 0);
  }

  lemma {:induction false} FewSpaces(d: bytes, i: nat)
    requires i <= 8 <= |d| && Filled(d, 0, i, 0x20) && !Filled(d, 0, 8, 0x20)
    ensures LeadingSpaces(d, i) < 8
    decreases 8 - i
  {
    if i < 8 && d[i] == 0x20 {
      FewSpaces(d, i + 1);
    }
  }

  /** A comment claims as many components more as it has grown by. */
  lemma {:induction false} CommentGrows(e: Entry, order: ByteOrder)
    requires Sized(e) && e.tag == 0x9286
    ensures FixEntry(e, order) == Entry(0x9286, 7, e.components + |Comment(e.data)| - |e.data|, Comment(e.data))
    ensures |Comment(e.data)| == |e.data| || |Comment(e.data)| == |e.data| + 8
  {
    hide Comment;
    CommentMeaning(e.data);
  }

  lemma {:induction false} ClearedCode(d: bytes)
    requires |d| >= 8 && d[0] == 0
    ensures LiesAt(Cleared(d), 0, Zeros(8)) && HasCode(Cleared(d))
  {
  }

  /** A comment ends up with a legal code, and all bytes after the code area, or the whole old text, are retained. */
  lemma {:induction false} CommentMeaning(d: bytes)
    ensures var r := Comment(d);
      && |r| >= 8 && HasCode(r)
      && ((|r| == |d| && r[8..] == d[8..]) || (|r| == |d| + 8 && r[8..] == d && LiesAt(r, 0, ASCII_CODE)))
  {
    hide LeadingZeros, LeadingSpaces, Blank;
    var c := Cleared(d);
    if |c| >= 8 {
      assert c[8..] == d[8..];
    }
    assert LiesAt(ASCII_CODE + c, 0, ASCII_CODE) && (ASCII_CODE + c)[8..] == c;
    if |c| >= 8 {
      assert LiesAt(ASCII_CODE + c[8..], 0, ASCII_CODE) && (ASCII_CODE + c[8..])[8..] == c[8..];
    }
    if |d| >= 8 && d[0] == 0 {
      ClearedCode(d);
    }
  }

  /** A comment with a printable code is left alone. */
  lemma {:induction false} CodedCommentStays(d: bytes)
    requires |d| >= 8 && (LiesAt(d, 0, ASCII_CODE) || LiesAt(d, 0, UNICODE_CODE) || LiesAt(d, 0, JIS_CODE))
    ensures Comment(d) == d
  {
    assert LiesAt(d, 0, ASCII_CODE) ==> d[0 + 0] == ASCII_CODE[0];
    assert LiesAt(d, 0, UNICODE_CODE) ==> d[0 + 0] == UNICODE_CODE[0];
    assert LiesAt(d, 0, JIS_CODE) ==> d[0 + 0] == JIS_CODE[0];
  }

  /** A comment with a zero code stays so only if nothing follows. */
  lemma {:induction false} CommentTwice(d: bytes)
    ensures Comment(Comment(d)) == Comment(d)
  {
    hide HasCode;
    CommentMeaning(d);
    var r := Comment(d);
    var c := Cleared(d);
    if LiesAt(r, 0, ASCII_CODE) || LiesAt(r, 0, UNICODE_CODE) || LiesAt(r, 0, JIS_CODE) {
      CodedCommentStays(r);
    } else {
      CodeIsZero(r);
      ZeroCommentStays(d);
    }
  }

  lemma {:induction false} CodeIsZero(r: bytes)
    requires HasCode(r) && !LiesAt(r, 0, ASCII_CODE) && !LiesAt(r, 0, UNICODE_CODE) && !LiesAt(r, 0, JIS_CODE)
    ensures LiesAt(r, 0, Zeros(8))
  {
  }

  lemma {:induction false} ZeroCommentStays(d: bytes)
    requires |Comment(d)| >= 8 && !LiesAt(Comment(d), 0, ASCII_CODE) && LiesAt(Comment(d), 0, Zeros(8))
    ensures Comment(Comment(d)) == Comment(d)
  {
    var r := Comment(d);
    var c := Cleared(d);
    assert r == c by {
      assert LiesAt(ASCII_CODE + c, 0, ASCII_CODE);
      if |c| >= 8 {
        assert LiesAt(ASCII_CODE + c[8..], 0, ASCII_CODE);
      }
    }
    assert r[0 + 0] == Zeros(8)[0];
    assert Cleared(r) == r by {
      LiesAtSlice(r, 0, Zeros(8));
      assert r == r[0..8] + r[8..];
    }
  }

  /** Repairing a repaired entry changes nothing. */
  lemma {:induction false} FixTwice(e: Entry, order: ByteOrder)
    requires Sized(e) && Sized(FixEntry(e, order))
    ensures FixEntry(FixEntry(e, order), order) == FixEntry(e, order)
  {
    hide Comment, Shorts, Rewritten;
    if e.tag == TAG_USER_COMMENT {
      CommentTwice(e.data);
    } else if NeedsRational(e.tag) || NeedsSRational(e.tag) {
      RationalsKeep(e, order);
    }
  }

  /**
   An entry with all its data still has it afterwards; a user comment of unknown format needs as
   many bytes as it claims components, since it is given a format with one byte each.
   */
  lemma {:induction false} FixKeepsSize(e: Entry, order: ByteOrder)
    requires Sized(e)
    ensures Sized(FixEntry(e, order)) <==> (e.tag == TAG_USER_COMMENT ==> e.components <= |e.data|)
  {
    hide Comment, Shorts, Rewritten;
    if e.tag == TAG_USER_COMMENT {
      CommentMeaning(e.data);
    }
  }

  /** A comment of format 0 that claims nine components: it becomes one of nine bytes, but has eight. */
  lemma {:induction false} SizeLostExample(order: ByteOrder)
    ensures var e := Entry(TAG_USER_COMMENT, 0, 9, ASCII_CODE);
      && Sized(e) && !Sized(FixEntry(e, order))
      && FixEntry(e, order) == Entry(TAG_USER_COMMENT, FMT_UNDEFINED, 9, ASCII_CODE)
  {
    hide Comment;
    CodedCommentStays(ASCII_CODE);
  }
}
