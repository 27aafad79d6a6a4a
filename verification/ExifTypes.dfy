/** The directories of an EXIF block, their entries and the kinds of data they may describe. */
module ExifTypes {
  import opened Bytes

  datatype Ifd = Ifd0 | Ifd1 | ExifIfd | GpsIfd | InteropIfd

  /** The four data types, and the one that stands for "not known". */
  datatype DataType = UncompressedChunky | UncompressedPlanar | UncompressedYcc | Compressed | NoType

  datatype Support = UnknownSupport | NotRecorded | Mandatory | Optional

  /** `data` is empty where the C pointer is NULL; otherwise its length is the C field `size`. */
  datatype Entry = Entry(tag: int, format: int, components: nat, data: bytes)

  /** The entries of the five directories. */
  datatype Contents = Contents(ifd0: seq<Entry>, ifd1: seq<Entry>, exif: seq<Entry>, gps: seq<Entry>,
    interop: seq<Entry>)
  {
    function Of(i: Ifd): seq<Entry>
    {
      match i
      case Ifd0 => ifd0
      case Ifd1 => ifd1
      case ExifIfd => exif
      case GpsIfd => gps
      case InteropIfd => interop
    }

    function With(i: Ifd, es: seq<Entry>): (c: Contents)
      ensures c.Of(i) == es && forall j :: j != i ==> c.Of(j) == Of(j)
    {
      match i
      case Ifd0 => this.(ifd0 := es)
      case Ifd1 => this.(ifd1 := es)
      case ExifIfd => this.(exif := es)
      case GpsIfd => this.(gps := es)
      case InteropIfd => this.(interop := es)
    }
  }

  const EMPTY := Contents([], [], [], [], [])

  const TAG_EXIF_POINTER := 0x8769
  const TAG_GPS_POINTER := 0x8825
  const TAG_INTEROP_POINTER := 0xa005
  const TAG_THUMBNAIL := 0x0201
  const TAG_THUMBNAIL_LENGTH := 0x0202
  const TAG_MAKER_NOTE := 0x927c

  /** The tags that never become entries: they hold the structure of the file. */
  predicate Special(tag: int)
  {
    || tag == TAG_EXIF_POINTER || tag == TAG_GPS_POINTER || tag == TAG_INTEROP_POINTER
    || tag == TAG_THUMBNAIL || tag == TAG_THUMBNAIL_LENGTH
  }

  predicate DistinctTags(es: seq<Entry>)
  {
    forall i, j :: 0 <= i < j < |es| ==> es[i].tag != es[j].tag
  }

  /** exif_content_get_entry: where the first entry with the tag is, if there is one. */
  predicate HasTag(es: seq<Entry>, tag: int)
  {
    exists i :: 0 <= i < |es| && es[i].tag == tag
  }

  /** exif_content_get_entry, as far as its callers here ask: is there an entry with the tag? */
  method Find(es: seq<Entry>, tag: int) returns (found: bool)
    ensures found == HasTag(es, tag)
  {
    for i := 0 to |es|
      invariant forall k :: 0 <= k < i ==> es[k].tag != tag
    {
      if es[i].tag == tag {
        return true;
      }
    }
    found := false;
  }

  lemma {:induction false} HasTagAppend(es: seq<Entry>, e: Entry, tag: int)
    ensures HasTag(es + [e], tag) <==> HasTag(es, tag) || e.tag == tag
  {
    if HasTag(es, tag) {
      var i :| 0 <= i < |es| && es[i].tag == tag;
      assert (es + [e])[i].tag == tag;
    }
    if e.tag == tag {
      assert (es + [e])[|es|].tag == tag;
    }
  }
}
