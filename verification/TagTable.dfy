/** Looking a tag up in the sorted table of all tags. */
module TagTable {
  import opened Bytes
  import opened ExifTypes

  /** One row; a tag with several meanings has several. `levels` is indexed by directory and data type. */
  datatype Row = Row(tag: int, name: string, levels: seq<seq<Support>>)

  function IfdIndex(ifd: Ifd): (k: nat)
    ensures k < 5
  {
    match ifd case Ifd0 => 0 case Ifd1 => 1 case ExifIfd => 2 case GpsIfd => 3 case InteropIfd => 4
  }

  function TypeIndex(t: DataType): (k: nat)
    requires !t.NoType?
    ensures k < 4
  {
    match t case UncompressedChunky => 0 case UncompressedPlanar => 1 case UncompressedYcc => 2 case Compressed => 3
  }

  predicate ValidRow(r: Row)
  {
    |r.levels| == 5 && forall i :: 0 <= i < 5 ==> |r.levels[i]| == 4
  }

  /** What the comment above the table demands. */
  predicate ValidTable(t: seq<Row>)
  {
    && (forall i :: 0 <= i < |t| ==> ValidRow(t[i]))
    && (forall i, j :: 0 <= i < j < |t| ==> t[i].tag <= t[j].tag)
  }

  function Level(r: Row, ifd: Ifd, t: DataType): Support
    requires ValidRow(r) && !t.NoType?
  {
    r.levels[IfdIndex(ifd)][TypeIndex(t)]
  }

  /** The RECORDED macro. */
  predicate Recorded(r: Row, ifd: Ifd)
    requires ValidRow(r)
  {
    var l := r.levels[IfdIndex(ifd)];
    l[0] != NotRecorded || l[1] != NotRecorded || l[2] != NotRecorded || l[3] != NotRecorded
  }

  /** The level is recorded and the same for every data type. */
  predicate Uniform(r: Row, ifd: Ifd)
    requires ValidRow(r)
  {
    var l := r.levels[IfdIndex(ifd)];
    l[0] != NotRecorded && l[1] == l[0] && l[2] == l[0] && l[3] == l[0]
  }

  // ---- The lookups as scans over the whole table ----

  function LevelScan(t: seq<Row>, tag: int, ifd: Ifd, dt: DataType, i: nat): Support
    requires ValidTable(t) && !dt.NoType? && i <= |t|
    decreases |t| - i
  {
    if i == |t| then NotRecorded
    else if t[i].tag == tag && Level(t[i], ifd, dt) != NotRecorded then Level(t[i], ifd, dt)
    else LevelScan(t, tag, ifd, dt, i + 1)
  }

  function AnyTypeScan(t: seq<Row>, tag: int, ifd: Ifd, i: nat): Support
    requires ValidTable(t) && i <= |t|
    decreases |t| - i
  {
    if i == |t| then UnknownSupport
    else if t[i].tag == tag && Uniform(t[i], ifd) then t[i].levels[IfdIndex(ifd)][0]
    else AnyTypeScan(t, tag, ifd, i + 1)
  }

  function NameScan(t: seq<Row>, tag: int, ifd: Ifd, i: nat): Option<string>
    requires ValidTable(t) && i <= |t|
    decreases |t| - i
  {
    if i == |t| then None
    else if t[i].tag == tag && Recorded(t[i], ifd) then Some(t[i].name)
    else NameScan(t, tag, ifd, i + 1)
  }

  /** exif_tag_get_support_level_in_ifd. */
  function SupportLevel(t: seq<Row>, tag: int, ifd: Ifd, dt: DataType): Support
    requires ValidTable(t)
  {
    if dt.NoType? then AnyTypeScan(t, tag, ifd, 0) else LevelScan(t, tag, ifd, dt, 0)
  }

  /** exif_tag_get_name_in_ifd finds a name. */
  predicate Named(t: seq<Row>, tag: int, ifd: Ifd)
    requires ValidTable(t)
  {
    NameScan(t, tag, ifd, 0).Some?
  }

  /** No row that does not match changes a scan. */
  lemma {:induction false} SkipRows(t: seq<Row>, tag: int, ifd: Ifd, dt: DataType, i: nat, j: nat)
    requires ValidTable(t) && i <= j <= |t| && forall k :: i <= k < j ==> t[k].tag != tag
    ensures NameScan(t, tag, ifd, i) == NameScan(t, tag, ifd, j)
    ensures AnyTypeScan(t, tag, ifd, i) == AnyTypeScan(t, tag, ifd, j)
    ensures !dt.NoType? ==> LevelScan(t, tag, ifd, dt, i) == LevelScan(t, tag, ifd, dt, j)
    decreases j - i
  {
    if i < j {
      SkipRows(t, tag, ifd, dt, i + 1, j);
    }
  }

  // ---- The lookups as the program makes them ----

  /** bsearch: some row with the tag, if there is one. */
  method Bsearch(t: seq<Row>, tag: int) returns (r: int)
    requires ValidTable(t)
    ensures r == -1 ==> forall k :: 0 <= k < |t| ==> t[k].tag != tag
    ensures r != -1 ==> 0 <= r < |t| && t[r].tag == tag
  {
    var lo, hi := 0, |t|;
    while lo < hi
      invariant 0 <= lo <= hi <= |t|
      invariant forall k :: 0 <= k < lo ==> t[k].tag < tag
      invariant forall k :: hi <= k < |t| ==> tag < t[k].tag
    {
      var mid := (lo + hi) / 2;
      if t[mid].tag == tag {
        return mid;
      } else if t[mid].tag < tag {
        lo := mid + 1;
      } else {
        hi := mid;
      }
    }
    r := -1;
  }

  /** exif_tag_table_first: the least row with the tag, or -1 exactly when there is none. */
  method First(t: seq<Row>, tag: int) returns (r: int)
    requires ValidTable(t)
    ensures r == -1 <==> forall k :: 0 <= k < |t| ==> t[k].tag != tag
    ensures r != -1 ==> 0 <= r < |t| && t[r].tag == tag && forall k :: 0 <= k < r ==> t[k].tag < tag
  {
    r := Bsearch(t, tag);
    if r == -1 {
      return;
    }
    while r > 0 && t[r - 1].tag == tag
      invariant 0 <= r < |t| && t[r].tag == tag
    {
      r := r - 1;
    }
  }

  /** exif_tag_get_name_in_ifd. */
  method NameInIfd(t: seq<Row>, tag: int, ifd: Ifd) returns (name: Option<string>)
    requires ValidTable(t)
    ensures name == NameScan(t, tag, ifd, 0)
  {
    var first := First(t, tag);
    if first < 0 {
      SkipRows(t, tag, ifd, NoType, 0, |t|);
      return None;
    }
    SkipRows(t, tag, ifd, NoType, 0, first);
    var i := first;
    while i < |t|
      invariant first <= i <= |t| && NameScan(t, tag, ifd, 0) == NameScan(t, tag, ifd, i)
    {
      if t[i].tag != tag {
        SkipRows(t, tag, ifd, NoType, i, |t|);
        return None;
      }
      if Recorded(t[i], ifd) {
        return Some(t[i].name);
      }
      i := i + 1;
    }
    name := None;
  }

  /** get_support_level_in_ifd. */
  method LevelInIfd(t: seq<Row>, tag: int, ifd: Ifd, dt: DataType) returns (s: Support)
    requires ValidTable(t) && !dt.NoType?
    ensures s == LevelScan(t, tag, ifd, dt, 0)
  {
    var first := First(t, tag);
    if first < 0 {
      SkipRows(t, tag, ifd, dt, 0, |t|);
      return NotRecorded;
    }
    SkipRows(t, tag, ifd, dt, 0, first);
    var i := first;
    while i < |t|
      invariant first <= i <= |t| && LevelScan(t, tag, ifd, dt, 0) == LevelScan(t, tag, ifd, dt, i)
    {
      if t[i].tag != tag {
        SkipRows(t, tag, ifd, dt, i, |t|);
        break;
      }
      if Level(t[i], ifd, dt) != NotRecorded {
        return Level(t[i], ifd, dt);
      }
      i := i + 1;
    }
    s := NotRecorded;
  }

  /** get_support_level_any_type. */
  method LevelAnyType(t: seq<Row>, tag: int, ifd: Ifd) returns (s: Support)
    requires ValidTable(t)
    ensures s == AnyTypeScan(t, tag, ifd, 0)
  {
    var first := First(t, tag);
    if first < 0 {
      SkipRows(t, tag, ifd, NoType, 0, |t|);
      return UnknownSupport;
    }
    SkipRows(t, tag, ifd, NoType, 0, first);
    var i := first;
    while i < |t|
      invariant first <= i <= |t| && AnyTypeScan(t, tag, ifd, 0) == AnyTypeScan(t, tag, ifd, i)
    {
      if t[i].tag != tag {
        SkipRows(t, tag, ifd, NoType, i, |t|);
        break;
      }
      var levels := t[i].levels[IfdIndex(ifd)];
      if levels[0] != NotRecorded {
        var k := 0;
        while k < 4 && levels[k] == levels[0]
          invariant k <= 4 && forall j :: 0 <= j < k ==> levels[j] == levels[0]
        {
          k := k + 1;
        }
        if k == 4 {
          return levels[0];
        }
      }
      i := i + 1;
    }
    s := UnknownSupport;
  }

  /** exif_tag_get_support_level_in_ifd. */
  method SupportLevelInIfd(t: seq<Row>, tag: int, ifd: Ifd, dt: DataType) returns (s: Support)
    requires ValidTable(t)
    ensures s == SupportLevel(t, tag, ifd, dt)
  {
    if dt.NoType? {
      s := LevelAnyType(t, tag, ifd);
    } else {
      s := LevelInIfd(t, tag, ifd, dt);
    }
  }

  // ---- What the answers mean ----

  /** Rows for the same tag never speak about the same directory and data type. */
  predicate NoOverlap(t: seq<Row>)
    requires ValidTable(t)
  {
    forall i, j, ifd, dt: DataType :: 0 <= i < j < |t| && t[i].tag == t[j].tag && !dt.NoType? ==>
      Level(t[i], ifd, dt) == NotRecorded || Level(t[j], ifd, dt) == NotRecorded
  }

  lemma {:induction false} LevelScanFinds(t: seq<Row>, tag: int, ifd: Ifd, dt: DataType, i: nat)
    requires ValidTable(t) && !dt.NoType? && i <= |t|
    ensures var s := LevelScan(t, tag, ifd, dt, i);
      if s == NotRecorded then forall k :: i <= k < |t| && t[k].tag == tag ==> Level(t[k], ifd, dt) == NotRecorded
      else exists k :: i <= k < |t| && t[k].tag == tag && Level(t[k], ifd, dt) == s
    decreases |t| - i
  {
    if i < |t| {
      LevelScanFinds(t, tag, ifd, dt, i + 1);
    }
  }

  /** Without overlaps the order of the rows does not matter: a level is found exactly when some row gives it. */
  lemma {:induction false} LevelIsUnique(t: seq<Row>, tag: int, ifd: Ifd, dt: DataType, s: Support)
    requires ValidTable(t) && NoOverlap(t) && !dt.NoType? && s != NotRecorded
    ensures SupportLevel(t, tag, ifd, dt) == s <==>
      exists k :: 0 <= k < |t| && t[k].tag == tag && Level(t[k], ifd, dt) == s
  {
    LevelScanFinds(t, tag, ifd, dt, 0);
    var found := SupportLevel(t, tag, ifd, dt);
    if found != NotRecorded {
      var k :| 0 <= k < |t| && t[k].tag == tag && Level(t[k], ifd, dt) == found;
      forall j | 0 <= j < |t| && t[j].tag == tag && Level(t[j], ifd, dt) == s ensures j == k {
      }
    }
  }

  /** With no data type known, no tag is ever said to be not recorded. */
  lemma {:induction false} AnyTypeNeverNotRecorded(t: seq<Row>, tag: int, ifd: Ifd, i: nat)
    requires ValidTable(t) && i <= |t|
    ensures AnyTypeScan(t, tag, ifd, i) != NotRecorded
    decreases |t| - i
  {
    if i < |t| {
      AnyTypeNeverNotRecorded(t, tag, ifd, i + 1);
    }
  }

  /** The row gives the tag this level in the directory, whatever the data type. */
  predicate Throughout(r: Row, ifd: Ifd, s: Support)
    requires ValidRow(r)
  {
    forall dt: DataType :: !dt.NoType? ==> Level(r, ifd, dt) == s
  }

  lemma {:induction false} UniformMeans(r: Row, ifd: Ifd)
    requires ValidRow(r)
    ensures Uniform(r, ifd) ==>
      r.levels[IfdIndex(ifd)][0] != NotRecorded && Throughout(r, ifd, r.levels[IfdIndex(ifd)][0])
    ensures forall s :: s != NotRecorded && Throughout(r, ifd, s) ==> Uniform(r, ifd) && s == r.levels[IfdIndex(ifd)][0]
  {
    var l := r.levels[IfdIndex(ifd)];
    assert Level(r, ifd, UncompressedChunky) == l[0] && Level(r, ifd, UncompressedPlanar) == l[1];
    assert Level(r, ifd, UncompressedYcc) == l[2] && Level(r, ifd, Compressed) == l[3];
  }

  lemma {:induction false} AnyTypeFinds(t: seq<Row>, tag: int, ifd: Ifd, i: nat)
    requires ValidTable(t) && i <= |t|
    ensures var s := AnyTypeScan(t, tag, ifd, i);
      || (exists k :: i <= k < |t| && t[k].tag == tag && Throughout(t[k], ifd, s))
      || (s == UnknownSupport && forall k, q :: i <= k < |t| && t[k].tag == tag && q != NotRecorded ==>
        !Throughout(t[k], ifd, q))
    decreases |t| - i
  {
    hide Throughout, Uniform;
    if i < |t| {
      UniformMeans(t[i], ifd);
      AnyTypeFinds(t, tag, ifd, i + 1);
    }
  }

  /**
   With no data type known, a tag has a level, other than that of being unknown, exactly when some row gives it that
   level for all data types.
   */
  lemma {:induction false} AnyTypeExactly(t: seq<Row>, tag: int, ifd: Ifd, s: Support)
    requires ValidTable(t) && NoOverlap(t) && (s == Mandatory || s == Optional)
    ensures SupportLevel(t, tag, ifd, NoType) == s <==>
      exists k :: 0 <= k < |t| && t[k].tag == tag && Throughout(t[k], ifd, s)
  {
    AnyTypeFinds(t, tag, ifd, 0);
    AnyTypeNeverNotRecorded(t, tag, ifd, 0);
    var found := SupportLevel(t, tag, ifd, NoType);
    if k :| 0 <= k < |t| && t[k].tag == tag && Throughout(t[k], ifd, s) {
      assert Level(t[k], ifd, Compressed) == s;
      if j :| 0 <= j < |t| && t[j].tag == tag && Throughout(t[j], ifd, found) {
        assert Level(t[j], ifd, Compressed) == found;
      }
    }
  }

  /** Row `k` is the first for the tag that says anything about the directory. */
  predicate FirstNamed(t: seq<Row>, tag: int, ifd: Ifd, i: nat, k: nat)
    requires ValidTable(t) && k < |t|
  {
    && i <= k && t[k].tag == tag && Recorded(t[k], ifd)
    && forall j :: i <= j < k && t[j].tag == tag ==> !Recorded(t[j], ifd)
  }

  lemma {:induction false} NameFrom(t: seq<Row>, tag: int, ifd: Ifd, i: nat, k: nat)
    requires ValidTable(t) && i <= k < |t| && FirstNamed(t, tag, ifd, i, k)
    ensures NameScan(t, tag, ifd, i) == Some(t[k].name)
    decreases k - i
  {
    hide Recorded;
    if i < k {
      NameFrom(t, tag, ifd, i + 1, k);
    }
  }

  /** The name of a tag in a directory is that of the first row for it with any level there. */
  lemma {:induction false} NameExactly(t: seq<Row>, tag: int, ifd: Ifd, k: nat)
    requires ValidTable(t) && k < |t| && FirstNamed(t, tag, ifd, 0, k)
    ensures NameScan(t, tag, ifd, 0) == Some(t[k].name)
  {
    NameFrom(t, tag, ifd, 0, k);
  }

  /** A row says something about a directory exactly when it has a level for some data type. */
  lemma {:induction false} RecordedExactly(r: Row, ifd: Ifd)
    requires ValidRow(r)
    ensures Recorded(r, ifd) <==> exists dt: DataType :: !dt.NoType? && Level(r, ifd, dt) != NotRecorded
  {
    if Recorded(r, ifd) {
      assert Level(r, ifd, SomeType(r, ifd)) != NotRecorded;
    }
  }

  /** Rows list their levels in the order of the enumerations: IFD 0, IFD 1, EXIF, GPS, Interoperability. */
  lemma {:induction false} LevelsInOrder(r: Row)
    requires ValidRow(r)
    ensures Level(r, Ifd0, UncompressedChunky) == r.levels[0][0] && Level(r, Ifd1, UncompressedPlanar) == r.levels[1][1]
    ensures Level(r, ExifIfd, UncompressedYcc) == r.levels[2][2] && Level(r, GpsIfd, Compressed) == r.levels[3][3]
    ensures Level(r, InteropIfd, UncompressedChunky) == r.levels[4][0]
  {
  }

  lemma {:induction false} NameScanFinds(t: seq<Row>, tag: int, ifd: Ifd, i: nat)
    requires ValidTable(t) && i <= |t|
    ensures NameScan(t, tag, ifd, i).Some? <==> exists k :: i <= k < |t| && t[k].tag == tag && Recorded(t[k], ifd)
    decreases |t| - i
  {
    if i < |t| {
      NameScanFinds(t, tag, ifd, i + 1);
    }
  }

  /** A data type for which a recorded row has a level. */
  function SomeType(r: Row, ifd: Ifd): (dt: DataType)
    requires ValidRow(r) && Recorded(r, ifd)
    ensures !dt.NoType? && Level(r, ifd, dt) != NotRecorded
  {
    if Level(r, ifd, UncompressedChunky) != NotRecorded then UncompressedChunky
    else if Level(r, ifd, UncompressedPlanar) != NotRecorded then UncompressedPlanar
    else if Level(r, ifd, UncompressedYcc) != NotRecorded then UncompressedYcc
    else Compressed
  }

  lemma {:induction false} LevelMeansNamed(t: seq<Row>, tag: int, ifd: Ifd, dt: DataType)
    requires ValidTable(t) && !dt.NoType? && SupportLevel(t, tag, ifd, dt) != NotRecorded
    ensures Named(t, tag, ifd)
  {
    LevelScanFinds(t, tag, ifd, dt, 0);
    NameScanFinds(t, tag, ifd, 0);
    var k :| 0 <= k < |t| && t[k].tag == tag && Level(t[k], ifd, dt) == SupportLevel(t, tag, ifd, dt);
    assert Recorded(t[k], ifd);
  }

  /** A tag is known in a directory exactly when some data type has a level for it there. */
  lemma {:induction false} NamedMeansRecorded(t: seq<Row>, tag: int, ifd: Ifd)
    requires ValidTable(t)
    ensures Named(t, tag, ifd) <==> exists dt: DataType :: !dt.NoType? && SupportLevel(t, tag, ifd, dt) != NotRecorded
  {
    forall dt: DataType | !dt.NoType? && SupportLevel(t, tag, ifd, dt) != NotRecorded ensures Named(t, tag, ifd) {
      LevelMeansNamed(t, tag, ifd, dt);
    }
    if Named(t, tag, ifd) {
      NameScanFinds(t, tag, ifd, 0);
      var k :| 0 <= k < |t| && t[k].tag == tag && Recorded(t[k], ifd);
      var dt := SomeType(t[k], ifd);
      LevelScanFinds(t, tag, ifd, dt, 0);
    }
  }
}
