/** From a JPEG stream to the entries: the loader and the EXIF object together. */
module JpegFile {
  import opened Bytes
  import opened ExifLayout
  import opened ExifLoad
  import opened ExifRoundTrip
  import opened ExifTheorems
  import Loader
  import LoaderJpeg
  import LoaderRaw
  import TagTable

  /** A JPEG stream with `f` as its EXIF segment, behind other segments. */
  function Stream(segs: seq<LoaderJpeg.Segment>, fill: nat, f: bytes, rest: bytes): bytes
    requires forall s <- segs :: LoaderJpeg.WellFormed(s)
  {
    var len := ShortDigits(|f| + 2, Motorola);
    LoaderJpeg.Image(segs, fill, len[0], len[1], f + rest)
  }

  lemma {:induction false} LengthBytes(n: nat)
    requires n < U16
    ensures var len := ShortDigits(n, Motorola); 0x100 * (len[0] as int) + len[1] == n
  {
    hide Digit;
    ShortRoundTrip(n, Motorola);
  }

  /** The loader collects the segment's payload, and up to two bytes of what follows it. */
  lemma {:induction false} StreamCollected(segs: seq<LoaderJpeg.Segment>, fill: nat, f: bytes, rest: bytes, t: bytes)
    requires (forall s <- segs :: LoaderJpeg.WellFormed(s)) && fill > 0 && LoaderJpeg.PassedOver(segs)
    requires 14 <= |f| < 0xfffe && LiesAt(f, 0, EXIF_HEADER) && t == Stream(segs, fill, f, rest)
    ensures Loader.Reachable(Loader.INITIAL)
    ensures var got := Loader.Run(Loader.INITIAL, t).0.got; |got| <= |f| + 2 && LiesAt(got, 0, f)
  {
    hide LoaderJpeg.Image, LoaderJpeg.PassedOver, Loader.Run, ShortDigits;
    var len := ShortDigits(|f| + 2, Motorola);
    LengthBytes(|f| + 2);
    LiesConcat(f + rest, 0, f, rest);
    LiesWithin(f + rest, 0, f, 0, EXIF_HEADER);
    LoaderJpeg.ExifIsFound(segs, fill, len[0], len[1], f + rest);
  }

  lemma {:induction false} FileStartsWithHeader(m: Model)
    ensures |FileOf(m)| >= 14 && LiesAt(FileOf(m), 0, EXIF_HEADER)
  {
    hide FileOf, LiesAt;
    AtLeastHeader(m);
    LiesInItself(FileOf(m));
    FileFound(m, FileOf(m));
  }

  /**
   Streamed round trip: a JPEG stream whose EXIF segment is a saved file, fed to the loader in chunks of any size,
   whenever the loader passes over the segments before, gives back byte order, thumbnail and entries once the collected
   bytes are loaded.
   */
  lemma {:induction false} StreamRoundTrip(order: ByteOrder, m: Model, table: seq<TagTable.Row>, ignoreUnknown: bool,
                                           segs: seq<LoaderJpeg.Segment>, fill: nat, rest: bytes, chunks: seq<bytes>,
                                             got: bytes)
    requires TagTable.ValidTable(table) && KeepsEntries(m) && Plain(table, ignoreUnknown, m.contents)
    requires |FileOf(m)| < 0xfffe
    requires (forall s <- segs :: LoaderJpeg.WellFormed(s)) && fill > 0 && LoaderJpeg.PassedOver(segs)
    requires Loader.Joined(chunks) == Stream(segs, fill, FileOf(m), rest)
    requires Loader.Reachable(Loader.INITIAL) && got == Loader.RunChunks(Loader.INITIAL, chunks).0.got
    ensures var r := LoadFile(order, FRESH, got, table, ignoreUnknown);
      r.complete && r.order == m.order && r.st.thumb == m.thumb && r.st.contents == SortedAll(m.contents)
  {
    hide FileOf, LiesAt, Plain, LoadFile, SortedAll, TagTable.ValidTable, Stream, Loader.Run, Loader.RunChunks;
    hide Loader.Reachable, LoaderJpeg.PassedOver, LoaderJpeg.WellFormed;
    FileStartsWithHeader(m);
    Loader.ChunkIndependence(Loader.INITIAL, chunks);
    StreamCollected(segs, fill, FileOf(m), rest, Loader.Joined(chunks));
    PlainRoundTrip(order, m, got, table, ignoreUnknown);
  }

  // ---- Raw files ----

  /** A Fuji raw file with the image at the offset that it names. */
  function RawStream(y: bytes, between: bytes, segs: seq<LoaderJpeg.Segment>, fill: nat, f: bytes, rest: bytes): bytes
    requires forall s <- segs :: LoaderJpeg.WellFormed(s)
  {
    FUJIFILM + y + LongDigits(88 + |between|, Motorola) + between + Stream(segs, fill, f, rest)
  }

  /** The same for a saved file in the image inside a Fuji raw file, whatever lies between header and image. */
  lemma {:induction false} RawRoundTrip(order: ByteOrder, m: Model, table: seq<TagTable.Row>, ignoreUnknown: bool,
                                        y: bytes, between: bytes, segs: seq<LoaderJpeg.Segment>, fill: nat, rest: bytes,
                                        chunks: seq<bytes>, got: bytes)
    requires TagTable.ValidTable(table) && KeepsEntries(m) && Plain(table, ignoreUnknown, m.contents)
    requires |FileOf(m)| < 0xfffe && |y| == 76 && 88 + |between| < U32
    requires (forall s <- segs :: LoaderJpeg.WellFormed(s)) && fill > 0
    requires LoaderJpeg.NoneTaken(segs, LoaderRaw.RawPlace(88 + |between|))
    requires Loader.Joined(chunks) == RawStream(y, between, segs, fill, FileOf(m), rest)
    requires Loader.Reachable(Loader.INITIAL) && got == Loader.RunChunks(Loader.INITIAL, chunks).0.got
    ensures var r := LoadFile(order, FRESH, got, table, ignoreUnknown);
      r.complete && r.order == m.order && r.st.thumb == m.thumb && r.st.contents == SortedAll(m.contents)
  {
    hide FileOf, LiesAt, Plain, LoadFile, SortedAll, TagTable.ValidTable, RawStream, Loader.Run, Loader.RunChunks;
    hide Loader.Reachable, LoaderJpeg.NoneTaken, LoaderRaw.RawPlace, LoaderJpeg.WellFormed;
    FileStartsWithHeader(m);
    Loader.ChunkIndependence(Loader.INITIAL, chunks);
    RawCollected(y, between, segs, fill, FileOf(m), rest, Loader.Joined(chunks));
    PlainRoundTrip(order, m, got, table, ignoreUnknown);
  }

  lemma {:induction false} RawCollected(y: bytes, between: bytes, segs: seq<LoaderJpeg.Segment>, fill: nat, f: bytes,
                                        rest: bytes, t: bytes)
    requires (forall s <- segs :: LoaderJpeg.WellFormed(s)) && fill > 0 && |y| == 76 && 88 + |between| < U32
    requires LoaderJpeg.NoneTaken(segs, LoaderRaw.RawPlace(88 + |between|))
    requires 14 <= |f| < 0xfffe && LiesAt(f, 0, EXIF_HEADER) && t == RawStream(y, between, segs, fill, f, rest)
    ensures Loader.Reachable(Loader.INITIAL)
    ensures var got := Loader.Run(Loader.INITIAL, t).0.got; |got| <= |f| + 2 && LiesAt(got, 0, f)
  {
    hide LoaderJpeg.Image, LoaderJpeg.NoneTaken, LoaderRaw.RawPlace, Loader.Run, ShortDigits, LongDigits;
    var len := ShortDigits(|f| + 2, Motorola);
    LengthBytes(|f| + 2);
    LiesConcat(f + rest, 0, f, rest);
    LiesWithin(f + rest, 0, f, 0, EXIF_HEADER);
    LoaderRaw.ImageAtOffset(y, 88 + |between|, between, segs, fill, len[0], len[1], f + rest);
  }
}
