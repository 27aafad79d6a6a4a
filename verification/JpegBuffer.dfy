/** Loading a whole JPEG image that lies in one buffer: the search for the EXIF segment behind other segments. */
module JpegBuffer {
  import opened Bytes
  import opened ExifTypes
  import opened ExifLayout
  import opened ExifLoad
  import opened ExifTheorems
  import ExifRoundTrip
  import JpegFile
  import TagTable

  /** An application segment: its length field counts itself and the payload. */
  datatype AppSegment = AppSegment(fill: nat, marker: byte, payload: bytes)

  /** A segment that is passed over: of an application marker, but not an APP1 segment with the EXIF header. */
  predicate PassedOver(s: AppSegment)
  {
    && 0xe0 <= s.marker <= 0xef && |s.payload| + 2 < U16
    && (s.marker == 0xe1 ==> !LiesAt(s.payload, 0, EXIF_HEADER))
  }

  function Fill(n: nat): (f: bytes)
    ensures |f| == n && forall i :: 0 <= i < n ==> f[i] == 0xff
  {
    seq(n, _ => 0xff)
  }

  function MarkerBytes(marker: byte, payload: bytes): bytes
  {
    [marker] + ShortDigits(|payload| + 2, Motorola) + payload
  }

  function SegmentBytes(s: AppSegment): bytes
  {
    Fill(s.fill) + MarkerBytes(s.marker, s.payload)
  }

  function SegmentsBytes(segs: seq<AppSegment>): bytes
  {
    if segs == [] then [] else SegmentBytes(segs[0]) + SegmentsBytes(segs[1..])
  }

  // ---- The search, step by step ----

  lemma {:induction false} SkipsFill(b: bytes, i: nat, n: nat)
    requires i + n < |b| && (forall k :: i <= k < i + n ==> b[k] == 0xff) && b[i + n] != 0xff
    ensures SkipFill(b, i) == i + n
    decreases n
  {
    if n > 0 {
      SkipsFill(b, i + 1, n - 1);
    }
  }

  /** The bytes of `b` from `i` on start with `x`: what stands behind it. */
  lemma {:induction false} Behind(b: bytes, i: nat, x: bytes, u: bytes)
    requires i <= |b| && b[i..] == x + u
    ensures i + |x| <= |b| && b[i + |x|..] == u && forall k :: 0 <= k < |x| ==> b[i + k] == x[k]
  {
    assert b[i..][|x|..] == u;
    assert forall k :: 0 <= k < |x| ==> b[i + k] == b[i..][k];
  }

  lemma {:induction false} LengthRead(b: bytes, j: nat, marker: byte, payload: bytes, u: bytes)
    requires j <= |b| && b[j..] == MarkerBytes(marker, payload) + u && |payload| + 2 < U16
    ensures j + 3 + |payload| <= |b| && b[j] == marker && GetShort(b, j + 1, Motorola) == |payload| + 2
    ensures b[j + 3..j + 3 + |payload|] == payload && b[j + 3 + |payload|..] == u
  {
    hide Digit;
    var d := ShortDigits(|payload| + 2, Motorola);
    ShortRoundTrip(|payload| + 2, Motorola);
    Behind(b, j, MarkerBytes(marker, payload), u);
    assert b[j + 1] == MarkerBytes(marker, payload)[1] == d[0];
    assert b[j + 2] == MarkerBytes(marker, payload)[2] == d[1];
    assert b[j..][3..3 + |payload|] == payload;
  }

  /** A header that is not in the payload is not found by looking further: what follows is a fill byte or a marker. */
  lemma {:induction false} NoHeader(b: bytes, j: nat, payload: bytes, u: bytes)
    requires j + 3 <= |b| && b[j + 3..] == payload + u && u != [] && u[0] >= 0xd8 && !LiesAt(payload, 0, EXIF_HEADER)
    ensures !LiesAt(b, j + 3, EXIF_HEADER)
  {
    Behind(b, j + 3, payload, u);
    if |payload| < 6 {
      assert b[j + 3..][|payload|] == u[0];
      assert b[j + 3 + |payload|] == u[0] != EXIF_HEADER[|payload|];
    } else {
      var k :| 0 <= k < 6 && payload[k] != EXIF_HEADER[k];
      assert b[j + 3 + k] == payload[k];
    }
  }

  /** Any number of fill bytes before a byte that is none. */
  lemma {:induction false} FillPassed(b: bytes, i: nat, n: nat, v: bytes)
    requires i <= |b| && b[i..] == Fill(n) + v && v != [] && v[0] != 0xff
    ensures i + n + |v| == |b| && b[i + n..] == v && b[i + n] == v[0] && SkipFill(b, i) == i + n
  {
    hide SkipFill, Fill;
    Behind(b, i, Fill(n), v);
    FillThere(b, i, n);
    assert b[i + n] == b[i + n..][0];
    SkipsFill(b, i, n);
  }

  /** One turn of the search, from `i` to the first byte `j` that is no fill byte. */
  lemma {:induction false} SearchTurn(b: bytes, i: nat, j: nat)
    requires i <= |b| && |b| - i >= 3 && SkipFill(b, i) == j < |b|
    ensures b[j] == 0xd8 ==> Search(b, i) == Search(b, j + 1)
    ensures b[j] == 0xe1 && |b| - j >= 9 && LiesAt(b, j + 3, EXIF_HEADER) ==> Search(b, i) == Some(j)
    ensures !(b[j] == 0xe1 && LiesAt(b, j + 3, EXIF_HEADER)) && 0xe0 <= b[j] <= 0xef && |b| - j >= 3 ==>
      Search(b, i) ==
        var l := GetShort(b, j + 1, Motorola); if l > |b| - (j + 1) then None else Search(b, j + 1 + l)
    ensures b[j] != 0xd8 && !(0xe0 <= b[j] <= 0xef) ==> Search(b, i) == None
  {
    hide SkipFill, GetShort, LiesAt;
  }

  /** One segment: the search goes on right behind it. */
  lemma {:induction false} SearchSegment(b: bytes, i: nat, s: AppSegment, u: bytes)
    requires i <= |b| && b[i..] == SegmentBytes(s) + u && PassedOver(s) && u != [] && u[0] >= 0xd8
    ensures i + |SegmentBytes(s)| <= |b| && b[i + |SegmentBytes(s)|..] == u
    ensures Search(b, i) == Search(b, i + |SegmentBytes(s)|)
  {
    hide GetShort, LiesAt, SkipFill, Search, Fill, ShortDigits;
    var x := MarkerBytes(s.marker, s.payload);
    var j := i + s.fill;
    assert SegmentBytes(s) + u == Fill(s.fill) + (x + u);
    FillPassed(b, i, s.fill, x + u);
    LengthRead(b, j, s.marker, s.payload, u);
    assert b[j + 3..] == s.payload + u by { assert b[j..][3..] == s.payload + u; }
    if s.marker == 0xe1 {
      NoHeader(b, j, s.payload, u);
    }
    SearchTurn(b, i, j);
  }

  lemma {:induction false} FillThere(b: bytes, i: nat, n: nat)
    requires i + n <= |b| && forall k :: 0 <= k < n ==> b[i + k] == Fill(n)[k]
    ensures forall k :: i <= k < i + n ==> b[k] == 0xff
  {
    forall k | i <= k < i + n ensures b[k] == 0xff {
      assert b[i + (k - i)] == Fill(n)[k - i];
    }
  }

  /** Each segment, and what comes behind the last, starts with a fill byte or a marker. */
  lemma {:induction false} StartsHigh(segs: seq<AppSegment>, u: bytes)
    requires (forall s <- segs :: PassedOver(s)) && u != [] && u[0] >= 0xd8
    ensures SegmentsBytes(segs) + u != [] && (SegmentsBytes(segs) + u)[0] >= 0xd8
  {
    hide SegmentBytes;
    if segs != [] {
      SegmentStarts(segs[0]);
      assert (SegmentsBytes(segs) + u)[0] == SegmentBytes(segs[0])[0];
    }
  }

  lemma {:induction false} SegmentStarts(s: AppSegment)
    requires PassedOver(s)
    ensures SegmentBytes(s) != [] && SegmentBytes(s)[0] >= 0xd8
  {
    hide Digit, LiesAt;
    assert SegmentBytes(s)[0] == if s.fill > 0 then 0xff else s.marker;
  }

  lemma {:induction false} SearchSegments(b: bytes, i: nat, segs: seq<AppSegment>, u: bytes)
    requires i <= |b| && b[i..] == SegmentsBytes(segs) + u && (forall s <- segs :: PassedOver(s)) && u != []
    requires u[0] >= 0xd8
    ensures i + |SegmentsBytes(segs)| <= |b| && b[i + |SegmentsBytes(segs)|..] == u
    ensures Search(b, i) == Search(b, i + |SegmentsBytes(segs)|)
    decreases |segs|
  {
    hide Search, SegmentBytes, PassedOver;
    if segs == [] {
      assert [] + u == u;
    } else {
      var v := SegmentsBytes(segs[1..]) + u;
      StartsHigh(segs[1..], u);
      assert SegmentsBytes(segs) + u == SegmentBytes(segs[0]) + v;
      SearchSegment(b, i, segs[0], v);
      SearchSegments(b, i + |SegmentBytes(segs[0])|, segs[1..], u);
    }
  }

  /** An image with the EXIF block `f` behind other segments, and with `rest` behind it. */
  function Image(segs: seq<AppSegment>, fill: nat, f: bytes, rest: bytes): bytes
  {
    [0xff, 0xd8] + (SegmentsBytes(segs) + (Fill(fill) + (MarkerBytes(0xe1, f) + rest)))
  }

  lemma {:induction false} SearchStarts(b: bytes)
    requires |b| >= 6 && b[0] == 0xff && b[1] == 0xd8
    ensures Search(b, 0) == Search(b, 2) && !LiesAt(b, 0, EXIF_HEADER)
  {
    SkipsFill(b, 0, 1);
    assert b[0 + 0] != EXIF_HEADER[0];
  }

  /** The EXIF segment ends the search. */
  lemma {:induction false} SearchEnds(b: bytes, i: nat, fill: nat, f: bytes, rest: bytes)
    requires i <= |b| && b[i..] == Fill(fill) + (MarkerBytes(0xe1, f) + rest)
    requires 6 <= |f| < 0xfffe && LiesAt(f, 0, EXIF_HEADER)
    ensures Search(b, i) == Some(i + fill)
    ensures i + fill + 3 + |f| <= |b| && GetShort(b, i + fill + 1, Motorola) == |f| + 2
    ensures b[i + fill + 3..i + fill + 3 + |f|] == f
  {
    hide GetShort, SkipFill, MarkerBytes, Search, Fill;
    var j := i + fill;
    AtLeastMarker(f);
    FillPassed(b, i, fill, MarkerBytes(0xe1, f) + rest);
    LengthRead(b, j, 0xe1, f, rest);
    SearchTurn(b, i, j);
    forall k | 0 <= k < 6 ensures b[j + 3 + k] == EXIF_HEADER[k] {
      assert b[j + 3..j + 3 + |f|][k] == f[0 + k];
    }
  }

  /** At the start of an image the search passes over the segments that can be passed over. */
  lemma {:induction false} ImageStart(segs: seq<AppSegment>, u: bytes)
    requires (forall s <- segs :: PassedOver(s)) && |u| >= 4 && u[0] >= 0xd8
    ensures var b, n := [0xff, 0xd8] + (SegmentsBytes(segs) + u), 2 + |SegmentsBytes(segs)|;
      |b| >= 6 && !LiesAt(b, 0, EXIF_HEADER) && b[n..] == u && Search(b, 0) == Search(b, n)
  {
    hide Search, SegmentsBytes, LiesAt, PassedOver;
    var b := [0xff, 0xd8] + (SegmentsBytes(segs) + u);
    assert b[2..] == SegmentsBytes(segs) + u;
    SearchStarts(b);
    SearchSegments(b, 2, segs, u);
  }

  /** Behind any segments that are passed over the search comes to the EXIF segment. */
  lemma {:induction false} ImageSearched(segs: seq<AppSegment>, fill: nat, f: bytes, rest: bytes)
    requires (forall s <- segs :: PassedOver(s)) && 6 <= |f| < 0xfffe && LiesAt(f, 0, EXIF_HEADER)
    ensures var b, j := Image(segs, fill, f, rest), 2 + |SegmentsBytes(segs)| + fill;
      && |b| >= 6 && !LiesAt(b, 0, EXIF_HEADER) && Search(b, 0) == Some(j)
      && j + 3 + |f| <= |b| && GetShort(b, j + 1, Motorola) == |f| + 2 && b[j + 3..j + 3 + |f|] == f
  {
    hide GetShort, Search, SegmentsBytes, MarkerBytes, LiesAt, PassedOver, Fill;
    var x := MarkerBytes(0xe1, f) + rest;
    AtLeastMarker(f);
    assert (Fill(fill) + x)[0] == (if fill > 0 then 0xff else x[0]);
    ImageStart(segs, Fill(fill) + x);
    SearchEnds(Image(segs, fill, f, rest), 2 + |SegmentsBytes(segs)|, fill, f, rest);
  }

  /** Behind any segments that are passed over the EXIF block is found, exactly as long as its segment says. */
  lemma {:induction false} BlockFound(segs: seq<AppSegment>, fill: nat, f: bytes, rest: bytes)
    requires (forall s <- segs :: PassedOver(s)) && 14 <= |f| < 0xfffe && LiesAt(f, 0, EXIF_HEADER)
    ensures FindExif(Image(segs, fill, f, rest)) == Some(f)
  {
    hide GetShort, Search, SegmentsBytes, Image, LiesAt, PassedOver;
    ImageSearched(segs, fill, f, rest);
  }

  /** A block of less than 14 bytes holds nothing: the search ends with it all the same. */
  lemma {:induction false} ShortBlock(segs: seq<AppSegment>, fill: nat, f: bytes, rest: bytes)
    requires (forall s <- segs :: PassedOver(s)) && 6 <= |f| < 14 && LiesAt(f, 0, EXIF_HEADER)
    ensures FindExif(Image(segs, fill, f, rest)) == None
  {
    hide GetShort, Search, SegmentsBytes, Image, LiesAt, PassedOver;
    ImageSearched(segs, fill, f, rest);
  }

  lemma {:induction false} AtLeastMarker(f: bytes)
    ensures |MarkerBytes(0xe1, f)| == |f| + 3 && MarkerBytes(0xe1, f)[0] == 0xe1
  {
  }

  /** A marker of any other kind in front of it ends the search without a block. */
  lemma {:induction false} OtherMarkerGivesUp(segs: seq<AppSegment>, fill: nat, marker: byte, rest: bytes)
    requires (forall s <- segs :: PassedOver(s)) && 0xd8 < marker < 0xff && !(0xe0 <= marker <= 0xef) && |rest| >= 3
    ensures FindExif([0xff, 0xd8] + (SegmentsBytes(segs) + (Fill(fill) + ([marker] + rest)))) == None
  {
    hide GetShort, SegmentsBytes, LiesAt, PassedOver, SkipFill, Search, Fill;
    var u := Fill(fill) + ([marker] + rest);
    var b := [0xff, 0xd8] + (SegmentsBytes(segs) + u);
    var n := |SegmentsBytes(segs)|;
    ImageStart(segs, u);
    FillPassed(b, 2 + n, fill, [marker] + rest);
    SearchTurn(b, 2 + n, 2 + n + fill);
  }

  // ---- Loading the image ----

  /** A load depends on the EXIF block alone. */
  lemma {:induction false} LoadOfBlock(order: ByteOrder, st: State, b: bytes, f: bytes, table: seq<TagTable.Row>,
                                       ignoreUnknown: bool)
    requires TagTable.ValidTable(table) && FindExif(b) == Some(f) && FindExif(f) == Some(f)
    ensures LoadFile(order, st, b, table, ignoreUnknown) == LoadFile(order, st, f, table, ignoreUnknown)
  {
    hide FindExif, LoadBlock, TagTable.ValidTable;
  }

  /**
   Loading an image whose EXIF segment is a saved file, behind other application segments and in front of anything,
   gives back byte order, thumbnail and entries.
   */
  lemma {:induction false} ImageRoundTrip(order: ByteOrder, m: Model, table: seq<TagTable.Row>, ignoreUnknown: bool,
                                          segs: seq<AppSegment>, fill: nat, rest: bytes)
    requires TagTable.ValidTable(table) && KeepsEntries(m) && Plain(table, ignoreUnknown, m.contents)
    requires |FileOf(m)| < 0xfffe && forall s <- segs :: PassedOver(s)
    ensures var r := LoadFile(order, FRESH, Image(segs, fill, FileOf(m), rest), table, ignoreUnknown);
      r.complete && r.order == m.order && r.st.thumb == m.thumb && r.st.contents == SortedAll(m.contents)
  {
    hide FileOf, LiesAt, Plain, LoadFile, FindExif, SortedAll, TagTable.ValidTable, Image, PassedOver;
    var f := FileOf(m);
    JpegFile.FileStartsWithHeader(m);
    LiesInItself(f);
    ExifRoundTrip.FileFound(m, f);
    BlockFound(segs, fill, f, rest);
    LoadOfBlock(order, FRESH, Image(segs, fill, f, rest), f, table, ignoreUnknown);
    PlainRoundTrip(order, m, f, table, ignoreUnknown);
  }
}
