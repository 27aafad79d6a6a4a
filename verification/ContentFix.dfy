/** exif_content_fix: bringing a whole directory into the form the specification demands. */
module ContentFix {
  import opened Bytes
  import opened ExifTypes
  import opened TagTable
  import opened EntryFix

  /** The directory being repaired, and what exif_entry_initialize gives a new entry for a tag. */
  datatype Setting = Setting(table: seq<Row>, ifd: Ifd, dt: DataType, order: ByteOrder, initial: int -> Entry)

  /** What is used of an initial value: its format suits its tag. */
  predicate InitialOk(e: Entry, tag: int)
  {
    && e.tag == tag && Sized(e)
    && (NeedsShort(tag) ==> e.format == FMT_SHORT || e.format == FMT_UNDEFINED)
    && (NeedsRational(tag) ==> e.format == FMT_RATIONAL)
    && (NeedsSRational(tag) ==> e.format == FMT_SRATIONAL)
    && (tag == TAG_USER_COMMENT ==> e.format == FMT_UNDEFINED && e.components == 0 && e.data == [])
  }

  /** Only mandatory tags are ever given an initial value; nothing is asked of those of other tags. */
  ghost predicate ValidSetting(s: Setting)
  {
    ValidTable(s.table) && forall tag: int :: MustBe(s, tag) ==> InitialOk(s.initial(tag), tag)
  }

  predicate MayStay(s: Setting, tag: int)
    requires ValidTable(s.table)
  {
    SupportLevel(s.table, tag, s.ifd, s.dt) != NotRecorded
  }

  predicate MustBe(s: Setting, tag: int)
    requires ValidTable(s.table)
  {
    SupportLevel(s.table, tag, s.ifd, s.dt) == Mandatory
  }

  predicate AllSized(es: seq<Entry>)
  {
    forall k :: 0 <= k < |es| ==> Sized(es[k])
  }

  // ---- Repairing the entries ----

  function FixAll(es: seq<Entry>, order: ByteOrder): (r: seq<Entry>)
    requires AllSized(es)
    ensures |r| == |es| && forall k :: 0 <= k < |es| ==> r[k] == FixEntry(es[k], order)
  {
    seq(|es|, k requires 0 <= k < |es| => FixEntry(es[k], order))
  }

  // ---- Removing ----

  function Without(es: seq<Entry>, i: nat): (r: seq<Entry>)
    requires i < |es|
    ensures |r| == |es| - 1
  {
    es[..i] + es[i + 1..]
  }

  /** One pass over the entries; after a removal the entry that moves up is skipped. */
  function Sweep(s: Setting, es: seq<Entry>, i: nat): (r: seq<Entry>)
    requires ValidTable(s.table) && i <= |es|
    ensures |r| <= |es|
    decreases |es| - i
  {
    if i == |es| then es
    else if MayStay(s, es[i].tag) then Sweep(s, es, i + 1)
    else
      var rest := Without(es, i);
      if i == |rest| then rest else Sweep(s, rest, i + 1)
  }

  /** Passes until one removes nothing. */
  function Removed(s: Setting, es: seq<Entry>): (r: seq<Entry>)
    requires ValidTable(s.table)
    decreases |es|
  {
    var r := Sweep(s, es, 0);
    if |r| == |es| then r else Removed(s, r)
  }

  /** The entries that may stay, in their order. */
  function Survivors(s: Setting, es: seq<Entry>): (r: seq<Entry>)
    requires ValidTable(s.table)
  {
    if es == [] then []
    else if MayStay(s, es[0].tag) then [es[0]] + Survivors(s, es[1..])
    else Survivors(s, es[1..])
  }

  lemma {:induction false} SurvivorsConcat(s: Setting, a: seq<Entry>, b: seq<Entry>)
    requires ValidTable(s.table)
    ensures Survivors(s, a + b) == Survivors(s, a) + Survivors(s, b)
    decreases |a|
  {
    hide MayStay, ValidTable;
    if a == [] {
      assert a + b == b;
    } else {
      assert (a + b)[1..] == a[1..] + b;
      SurvivorsConcat(s, a[1..], b);
    }
  }

  lemma {:induction false} WithoutBad(s: Setting, es: seq<Entry>, i: nat)
    requires ValidTable(s.table) && i < |es| && !MayStay(s, es[i].tag)
    ensures Survivors(s, Without(es, i)) == Survivors(s, es)
  {
    hide MayStay, ValidTable;
    assert es == es[..i] + es[i..];
    assert es[i..][1..] == es[i + 1..];
    SurvivorsConcat(s, es[..i], es[i..]);
    SurvivorsConcat(s, es[..i], es[i + 1..]);
  }

  /** A pass loses no entry that may stay; one that removes nothing met only such entries. */
  lemma {:induction false} SweepKeeps(s: Setting, es: seq<Entry>, i: nat)
    requires ValidTable(s.table) && i <= |es|
    ensures Survivors(s, Sweep(s, es, i)) == Survivors(s, es)
    ensures |Sweep(s, es, i)| == |es| ==> Sweep(s, es, i) == es && forall k :: i <= k < |es| ==> MayStay(s, es[k].tag)
    decreases |es| - i
  {
    hide MayStay, ValidTable, Survivors;
    if i < |es| {
      if MayStay(s, es[i].tag) {
        SweepKeeps(s, es, i + 1);
      } else {
        WithoutBad(s, es, i);
        if i < |es| - 1 {
          SweepKeeps(s, Without(es, i), i + 1);
        }
      }
    }
  }

  lemma {:induction false} AllStay(s: Setting, es: seq<Entry>)
    requires ValidTable(s.table) && forall k :: 0 <= k < |es| ==> MayStay(s, es[k].tag)
    ensures Survivors(s, es) == es
    decreases |es|
  {
    hide MayStay, ValidTable;
    if es != [] {
      AllStay(s, es[1..]);
      assert es == [es[0]] + es[1..];
    }
  }

  /** Convergence: although each removal skips an entry, the loop ends with exactly those that may stay. */
  lemma {:induction false} RemovedIsSurvivors(s: Setting, es: seq<Entry>)
    requires ValidTable(s.table)
    ensures Removed(s, es) == Survivors(s, es)
    decreases |es|
  {
    hide MayStay, ValidTable, Sweep, Survivors;
    SweepKeeps(s, es, 0);
    var r := Sweep(s, es, 0);
    if |r| == |es| {
      AllStay(s, es);
    } else {
      RemovedIsSurvivors(s, r);
    }
  }

  lemma {:induction false} SurvivorsMeaning(s: Setting, es: seq<Entry>)
    requires ValidTable(s.table)
    ensures forall k :: 0 <= k < |Survivors(s, es)| ==> MayStay(s, Survivors(s, es)[k].tag) && Survivors(s, es)[k] in es
    ensures forall e :: e in es && MayStay(s, e.tag) ==> e in Survivors(s, es)
    decreases |es|
  {
    hide MayStay, ValidTable;
    if es != [] {
      SurvivorsMeaning(s, es[1..]);
      assert es == [es[0]] + es[1..];
    }
  }

  /** With no data type known, nothing is removed. */
  lemma {:induction false} UnknownTypeKeepsAll(s: Setting, es: seq<Entry>)
    requires ValidTable(s.table) && s.dt.NoType?
    ensures Removed(s, es) == es
  {
    hide Removed, Survivors, ValidTable, AnyTypeScan;
    forall k | 0 <= k < |es| ensures MayStay(s, es[k].tag) {
      AnyTypeNeverNotRecorded(s.table, es[k].tag, s.ifd, 0);
    }
    AllStay(s, es);
    RemovedIsSurvivors(s, es);
  }

  // ---- Adding ----

  /** The tag of row `k`; the row behind the last is the terminator. */
  function TagAt(table: seq<Row>, k: nat): int
  {
    if k < |table| then table[k].tag else 0
  }

  /** A new entry has tag 0 when it is added, so it is turned away if tag 0 is there; its tag is set afterwards. */
  function AddNew(s: Setting, es: seq<Entry>, tag: int): seq<Entry>
  {
    if HasTag(es, 0) then es else es + [s.initial(tag)]
  }

  /** The loop over the table from row `k` on, the terminator included. */
  function AddMandatory(s: Setting, es: seq<Entry>, k: nat): (r: seq<Entry>)
    requires ValidTable(s.table) && k <= |s.table| + 1
    decreases |s.table| + 1 - k
  {
    if k == |s.table| + 1 then es
    else
      var tag := TagAt(s.table, k);
      AddMandatory(s, if MustBe(s, tag) && !HasTag(es, tag) then AddNew(s, es, tag) else es, k + 1)
  }

  /** The repaired directory. */
  function Fixed(s: Setting, es: seq<Entry>): seq<Entry>
    requires ValidTable(s.table) && AllSized(es)
  {
    AddMandatory(s, Removed(s, FixAll(es, s.order)), 0)
  }

  // ---- What adding does ----

  /** The first row from `k` on that adds. */
  lemma {:induction false} AddStep(s: Setting, es: seq<Entry>, k: nat, es': seq<Entry>)
    requires ValidSetting(s) && k <= |s.table|
    requires es' == var tag := TagAt(s.table, k); if MustBe(s, tag) && !HasTag(es, tag) then AddNew(s, es, tag) else es
    ensures AddMandatory(s, es, k) == AddMandatory(s, es', k + 1)
    ensures forall t :: HasTag(es', t) <==> HasTag(es, t) || (t == TagAt(s.table, k) && MustBe(s, t) && !HasTag(es, 0))
    ensures DistinctTags(es) ==> DistinctTags(es')
    ensures |es'| >= |es| && es'[..|es|] == es
    ensures forall i :: |es| <= i < |es'| ==> MustBe(s, es'[i].tag) && es'[i] == s.initial(es'[i].tag)
  {
    hide MustBe, ValidTable, HasTag;
    var tag := TagAt(s.table, k);
    var e := s.initial(tag);
    if MustBe(s, tag) {
      assert InitialOk(e, tag);
    }
    forall t ensures HasTag(es', t) <==> HasTag(es, t) || (t == tag && MustBe(s, t) && !HasTag(es, 0)) {
      HasTagAppend(es, e, t);
    }
    if DistinctTags(es) && es' != es {
      NotThere(es, tag);
    }
  }

  lemma {:induction false} NotThere(es: seq<Entry>, tag: int)
    requires !HasTag(es, tag)
    ensures forall i :: 0 <= i < |es| ==> es[i].tag != tag
  {
  }

  /** What the loop adds: initial values of mandatory tags, behind the entries there are; no tag twice. */
  lemma {:induction false} AddMeaning(s: Setting, es: seq<Entry>, k: nat)
    requires ValidSetting(s) && k <= |s.table| + 1
    ensures var r := AddMandatory(s, es, k);
      && |r| >= |es| && r[..|es|] == es
      && (DistinctTags(es) ==> DistinctTags(r))
      && (forall i :: |es| <= i < |r| ==> MustBe(s, r[i].tag) && r[i] == s.initial(r[i].tag))
    decreases |s.table| + 1 - k
  {
    hide MustBe, ValidTable, HasTag;
    if k <= |s.table| {
      var tag := TagAt(s.table, k);
      var es' := if MustBe(s, tag) && !HasTag(es, tag) then AddNew(s, es, tag) else es;
      AddStep(s, es, k, es');
      AddMeaning(s, es', k + 1);
      var r := AddMandatory(s, es', k + 1);
      assert r[..|es|] == r[..|es'|][..|es|];
      forall i | |es| <= i < |r| ensures MustBe(s, r[i].tag) && r[i] == s.initial(r[i].tag) {
        if i < |es'| {
          assert r[i] == r[..|es'|][i];
        }
      }
    }
  }

  /** Once tag 0 is there, nothing more is added. */
  lemma {:induction false} ZeroBlocks(s: Setting, es: seq<Entry>, k: nat)
    requires ValidTable(s.table) && k <= |s.table| + 1 && HasTag(es, 0)
    ensures AddMandatory(s, es, k) == es
    decreases |s.table| + 1 - k
  {
    hide MustBe, ValidTable, HasTag;
    if k <= |s.table| {
      ZeroBlocks(s, es, k + 1);
    }
  }

  /** When every tag that is asked for is there, nothing is added. */
  lemma {:induction false} NothingToAdd(s: Setting, es: seq<Entry>, k: nat)
    requires ValidTable(s.table) && k <= |s.table| + 1
    requires forall j :: k <= j <= |s.table| && MustBe(s, TagAt(s.table, j)) ==> HasTag(es, TagAt(s.table, j))
    ensures AddMandatory(s, es, k) == es
    decreases |s.table| + 1 - k
  {
    hide MustBe, ValidTable, HasTag;
    if k <= |s.table| {
      NothingToAdd(s, es, k + 1);
    }
  }

  /**
   Without tag 0, and as long as it is not itself mandatory, every mandatory tag from row `k` on is there in the end.
   */
  lemma {:induction false} AddsAll(s: Setting, es: seq<Entry>, k: nat)
    requires ValidSetting(s) && k <= |s.table| + 1 && !HasTag(es, 0) && !MustBe(s, 0)
    ensures forall t :: HasTag(es, t) ==> HasTag(AddMandatory(s, es, k), t)
    ensures forall j :: k <= j <= |s.table| && MustBe(s, TagAt(s.table, j)) ==>
      HasTag(AddMandatory(s, es, k), TagAt(s.table, j))
    decreases |s.table| + 1 - k
  {
    hide MustBe, ValidTable, HasTag;
    if k <= |s.table| {
      var tag := TagAt(s.table, k);
      var es' := if MustBe(s, tag) && !HasTag(es, tag) then AddNew(s, es, tag) else es;
      AddStep(s, es, k, es');
      AddsAll(s, es', k + 1);
    }
  }

  // ---- The repaired directory ----

  /** Every mandatory tag is there. */
  ghost predicate MandatoryPresent(s: Setting, es: seq<Entry>)
    requires ValidTable(s.table)
  {
    forall tag: int :: MustBe(s, tag) ==> HasTag(es, tag)
  }

  lemma {:induction false} AnyTypeScanFinds(t: seq<Row>, tag: int, ifd: Ifd, i: nat)
    requires ValidTable(t) && i <= |t| && AnyTypeScan(t, tag, ifd, i) == Mandatory
    ensures exists k :: i <= k < |t| && t[k].tag == tag
    decreases |t| - i
  {
    hide Uniform;
    if t[i].tag != tag || !Uniform(t[i], ifd) {
      AnyTypeScanFinds(t, tag, ifd, i + 1);
    }
  }

  lemma {:induction false} MandatoryHasRow(s: Setting, tag: int)
    requires ValidTable(s.table) && MustBe(s, tag)
    ensures exists k :: 0 <= k < |s.table| && TagAt(s.table, k) == tag
  {
    if s.dt.NoType? {
      AnyTypeScanFinds(s.table, tag, s.ifd, 0);
      var k :| 0 <= k < |s.table| && s.table[k].tag == tag;
      assert TagAt(s.table, k) == tag;
    } else {
      LevelScanFinds(s.table, tag, s.ifd, s.dt, 0);
      var k :| 0 <= k < |s.table| && s.table[k].tag == tag && Level(s.table[k], s.ifd, s.dt) == Mandatory;
      assert TagAt(s.table, k) == tag;
    }
  }

  /** When tag 0 is mandatory its row comes first, and having added it the loop adds nothing else. */
  lemma {:induction false} ZeroFirst(s: Setting, es: seq<Entry>)
    requires ValidSetting(s) && (forall k :: 0 <= k < |s.table| ==> s.table[k].tag >= 0) && MustBe(s, 0)
    requires !HasTag(es, 0)
    ensures forall t :: HasTag(AddMandatory(s, es, 0), t) <==> HasTag(es, t) || t == 0
  {
    hide MustBe, HasTag;
    MandatoryHasRow(s, 0);
    var k :| 0 <= k < |s.table| && TagAt(s.table, k) == 0;
    assert TagAt(s.table, 0) == 0;
    AddStep(s, es, 0, AddNew(s, es, 0));
    ZeroBlocks(s, AddNew(s, es, 0), 1);
  }

  /** The same for what is left by the removals. */
  lemma {:induction false} MandatoryAfterRemovals(s: Setting, es: seq<Entry>)
    requires ValidSetting(s) && (forall k :: 0 <= k < |s.table| ==> s.table[k].tag >= 0) && AllSized(es)
    ensures var kept := Removed(s, FixAll(es, s.order));
      MandatoryPresent(s, Fixed(s, es)) <==>
        || MandatoryPresent(s, kept)
        || (!HasTag(kept, 0) && (MustBe(s, 0) ==> forall tag: int :: tag != 0 && MustBe(s, tag) ==> HasTag(kept, tag)))
  {
    hide MustBe, HasTag, Removed, FixAll, AddMandatory, AllSized;
    var kept := Removed(s, FixAll(es, s.order));
    if HasTag(kept, 0) {
      ZeroBlocks(s, kept, 0);
    } else if MustBe(s, 0) {
      ZeroFirst(s, kept);
    } else {
      AddsAll(s, kept, 0);
      forall tag: int | MustBe(s, tag) ensures HasTag(Fixed(s, es), tag) {
        MandatoryHasRow(s, tag);
      }
    }
  }

  /**
   By the tag table alone: no entry of a repaired directory has a tag that is not recorded there, and every entry whose
   tag is, or about whose tag nothing is known, is there in its repaired form.
   */
  lemma {:induction false} RecordedSurvive(s: Setting, es: seq<Entry>)
    requires ValidSetting(s) && AllSized(es)
    ensures forall k :: 0 <= k < |Fixed(s, es)| ==>
      SupportLevel(s.table, Fixed(s, es)[k].tag, s.ifd, s.dt) != NotRecorded
    ensures forall k :: 0 <= k < |es| && SupportLevel(s.table, es[k].tag, s.ifd, s.dt) != NotRecorded ==>
      FixEntry(es[k], s.order) in Fixed(s, es)
  {
    hide ValidTable, Fixed, SupportLevel, FixEntry, Sized, MustBe, DistinctTags, Survivors;
    var f, r := FixAll(es, s.order), Fixed(s, es);
    FixedMeaning(s, es);
    SurvivorsMeaning(s, f);
    forall k | 0 <= k < |r| ensures SupportLevel(s.table, r[k].tag, s.ifd, s.dt) != NotRecorded {
      assert MayStay(s, r[k].tag);
    }
    forall k | 0 <= k < |es| && SupportLevel(s.table, es[k].tag, s.ifd, s.dt) != NotRecorded
      ensures FixEntry(es[k], s.order) in r {
      assert f[k] == FixEntry(es[k], s.order) && f[k].tag == es[k].tag;
      assert f[k] in f && MayStay(s, f[k].tag);
      assert f[k] in r[..|Survivors(s, f)|];
    }
  }

  /** What is demanded by the tag table alone. */
  lemma {:induction false} MandatoryByTable(s: Setting, es: seq<Entry>)
    requires ValidTable(s.table)
    ensures MandatoryPresent(s, es) <==>
      forall tag: int :: SupportLevel(s.table, tag, s.ifd, s.dt) == Mandatory ==> HasTag(es, tag)
  {
    hide ValidTable, SupportLevel, HasTag;
    if MandatoryPresent(s, es) {
      forall tag: int | SupportLevel(s.table, tag, s.ifd, s.dt) == Mandatory ensures HasTag(es, tag) {
        assert MustBe(s, tag);
      }
    }
  }

  lemma {:induction false} FixAllTags(es: seq<Entry>, order: ByteOrder, tag: int)
    requires AllSized(es)
    ensures HasTag(FixAll(es, order), tag) <==> HasTag(es, tag)
  {
    hide FixEntry;
    var f := FixAll(es, order);
    assert forall k :: 0 <= k < |es| ==> f[k].tag == es[k].tag;
    if HasTag(f, tag) {
      var k :| 0 <= k < |f| && f[k].tag == tag;
      assert es[k].tag == tag;
    }
    if HasTag(es, tag) {
      var k :| 0 <= k < |es| && es[k].tag == tag;
      assert f[k].tag == tag;
    }
  }

  lemma {:induction false} SurvivorTags(s: Setting, es: seq<Entry>, tag: int)
    requires ValidTable(s.table)
    ensures HasTag(Survivors(s, es), tag) <==> HasTag(es, tag) && MayStay(s, tag)
  {
    hide MayStay, ValidTable, Survivors;
    var r := Survivors(s, es);
    SurvivorsMeaning(s, es);
    if HasTag(r, tag) {
      var k :| 0 <= k < |r| && r[k].tag == tag;
      assert r[k] in es;
    }
    if HasTag(es, tag) && MayStay(s, tag) {
      var k :| 0 <= k < |es| && es[k].tag == tag;
      assert es[k] in es;
      assert es[k] in r;
    }
  }

  /** The tags that are left by the removals are those that were there and may stay. */
  lemma {:induction false} TagsLeft(s: Setting, es: seq<Entry>)
    requires ValidTable(s.table) && AllSized(es)
    ensures forall tag: int :: HasTag(Removed(s, FixAll(es, s.order)), tag) <==> HasTag(es, tag) && MayStay(s, tag)
  {
    hide *;
    forall tag: int ensures HasTag(Removed(s, FixAll(es, s.order)), tag) <==> HasTag(es, tag) && MayStay(s, tag) {
      RemovedIsSurvivors(s, FixAll(es, s.order));
      SurvivorTags(s, FixAll(es, s.order), tag);
      FixAllTags(es, s.order, tag);
    }
  }

  /** Tag 0 is there and stays: new entries cannot be added. */
  predicate ZeroStays(s: Setting, es: seq<Entry>)
    requires ValidTable(s.table)
  {
    HasTag(es, 0) && MayStay(s, 0)
  }

  /** No mandatory tag but perhaps tag 0 is missing. */
  ghost predicate OnlyZeroMissing(s: Setting, es: seq<Entry>)
    requires ValidTable(s.table)
  {
    forall tag: int :: tag != 0 && MustBe(s, tag) ==> HasTag(es, tag)
  }

  /**
   When the repair of a directory leaves every mandatory tag present: if they are all there to begin with, or else if
   tag 0 is not there to stay, and is not itself mandatory unless it is the only one missing.
   */
  lemma {:induction false} MandatoryExactly(s: Setting, es: seq<Entry>)
    requires ValidSetting(s) && (forall k :: 0 <= k < |s.table| ==> s.table[k].tag >= 0) && AllSized(es)
    ensures MandatoryPresent(s, Fixed(s, es)) <==>
      MandatoryPresent(s, es) || (!ZeroStays(s, es) && (MustBe(s, 0) ==> OnlyZeroMissing(s, es)))
  {
    hide HasTag, Removed, FixAll, AllSized, Fixed, ValidTable, SupportLevel;
    MandatoryAfterRemovals(s, es);
    TagsLeft(s, es);
    assert forall tag: int :: MustBe(s, tag) ==> MayStay(s, tag);
  }

  // ---- A directory that cannot be repaired ----

  function RowOf(s: Support): Row
    requires s == Mandatory || s == Optional
  {
    Row(if s == Mandatory then 5 else 0, "", seq(5, _ => seq(4, _ => s)))
  }

  /** Tag 5 is mandatory, and missing, in a directory whose only entry has tag 0. */
  lemma {:induction false} MandatoryMissing(order: ByteOrder, initial: int -> Entry)
    requires ValidSetting(Setting([RowOf(Optional), RowOf(Mandatory)], Ifd0, Compressed, order, initial))
    ensures var s := Setting([RowOf(Optional), RowOf(Mandatory)], Ifd0, Compressed, order, initial);
      var es := [Entry(0, FMT_BYTE, 1, [1])];
      AllSized(es) && MustBe(s, 5) && Fixed(s, es) == es && !HasTag(Fixed(s, es), 5)
  {
    var s := Setting([RowOf(Optional), RowOf(Mandatory)], Ifd0, Compressed, order, initial);
    var es := [Entry(0, FMT_BYTE, 1, [1])];
    assert FixAll(es, order) == es;
    assert SupportLevel(s.table, 0, Ifd0, Compressed) == Optional;
    assert LevelScan(s.table, 5, Ifd0, Compressed, 1) == Mandatory;
    AllStay(s, es);
    RemovedIsSurvivors(s, es);
    assert HasTag(es, 0);
    ZeroBlocks(s, es, 0);
  }

  /** Nothing that is not recorded is left, survivors come first and in their order, and no tag is there twice. */
  lemma {:induction false} FixedMeaning(s: Setting, es: seq<Entry>)
    requires ValidSetting(s) && AllSized(es)
    ensures var r, kept := Fixed(s, es), Survivors(s, FixAll(es, s.order));
      && |r| >= |kept| && r[..|kept|] == kept
      && (forall k :: 0 <= k < |r| ==> MayStay(s, r[k].tag))
      && (forall k :: |kept| <= k < |r| ==> MustBe(s, r[k].tag) && r[k] == s.initial(r[k].tag))
      && (DistinctTags(es) ==> DistinctTags(r))
  {
    hide HasTag, Removed, AddMandatory, Survivors, AllSized, SupportLevel, ValidTable;
    var f := FixAll(es, s.order);
    RemovedIsSurvivors(s, f);
    SurvivorsMeaning(s, f);
    var kept := Survivors(s, f);
    AddMeaning(s, kept, 0);
    if DistinctTags(es) {
      FixAllDistinct(es, s.order);
      SurvivorsDistinct(s, f);
    }
    var r := Fixed(s, es);
    forall k | 0 <= k < |r| ensures MayStay(s, r[k].tag) {
      if k < |kept| {
        assert r[k] == r[..|kept|][k];
      }
    }
  }

  lemma {:induction false} FixAllDistinct(es: seq<Entry>, order: ByteOrder)
    requires AllSized(es) && DistinctTags(es)
    ensures DistinctTags(FixAll(es, order))
  {
    hide FixEntry;
  }

  lemma {:induction false} SurvivorsAvoid(s: Setting, es: seq<Entry>, tag: int)
    requires ValidTable(s.table) && forall i :: 0 <= i < |es| ==> es[i].tag != tag
    ensures forall i :: 0 <= i < |Survivors(s, es)| ==> Survivors(s, es)[i].tag != tag
    decreases |es|
  {
    hide MayStay, ValidTable;
    if es != [] {
      SurvivorsAvoid(s, es[1..], tag);
    }
  }

  lemma {:induction false} SurvivorsDistinct(s: Setting, es: seq<Entry>)
    requires ValidTable(s.table) && DistinctTags(es)
    ensures DistinctTags(Survivors(s, es))
    decreases |es|
  {
    hide MayStay, ValidTable;
    if es != [] {
      SurvivorsDistinct(s, es[1..]);
      SurvivorsAvoid(s, es[1..], es[0].tag);
    }
  }

  // ---- A second repair ----

  /**
   What idempotence asks for: comments that keep all their data, and a table in which the comment is not mandatory.
   */
  ghost predicate Repairable(s: Setting, es: seq<Entry>)
    requires ValidTable(s.table)
  {
    && AllSized(es) && !MustBe(s, TAG_USER_COMMENT)
    && forall k :: 0 <= k < |es| && es[k].tag == TAG_USER_COMMENT ==> es[k].components <= |es[k].data|
  }

  lemma {:induction false} InitialStays(e: Entry, tag: int, order: ByteOrder)
    requires InitialOk(e, tag) && tag != TAG_USER_COMMENT
    ensures FixEntry(e, order) == e
  {
  }

  /** The entries of a repaired directory are in their final form. */
  lemma {:induction false} EntriesSettled(s: Setting, es: seq<Entry>)
    requires ValidSetting(s) && Repairable(s, es)
    ensures AllSized(Fixed(s, es)) && FixAll(Fixed(s, es), s.order) == Fixed(s, es)
  {
    hide Removed, AddMandatory, Survivors, FixEntry, Sized, MustBe, MayStay, ValidTable, DistinctTags;
    var r, f := Fixed(s, es), FixAll(es, s.order);
    var kept := Survivors(s, f);
    FixedMeaning(s, es);
    SurvivorsMeaning(s, f);
    forall k | 0 <= k < |r| ensures Sized(r[k]) && FixEntry(r[k], s.order) == r[k] {
      if k < |kept| {
        assert r[k] == r[..|kept|][k] == kept[k];
        assert kept[k] in f;
        var j :| 0 <= j < |f| && f[j] == kept[k];
        FixKeepsSize(es[j], s.order);
        FixTwice(es[j], s.order);
      } else {
        assert InitialOk(s.initial(r[k].tag), r[k].tag);
        InitialFacts(r[k], r[k].tag);
        InitialStays(r[k], r[k].tag, s.order);
      }
    }
  }

  lemma {:induction false} InitialFacts(e: Entry, tag: int)
    requires InitialOk(e, tag)
    ensures Sized(e) && e.tag == tag
  {
  }

  lemma {:induction false} NothingRemoved(s: Setting, es: seq<Entry>)
    requires ValidTable(s.table) && forall k :: 0 <= k < |es| ==> MayStay(s, es[k].tag)
    ensures Removed(s, es) == es
  {
    hide *;
    AllStay(s, es);
    RemovedIsSurvivors(s, es);
  }

  lemma {:induction false} NothingAdded(s: Setting, kept: seq<Entry>)
    requires ValidSetting(s) && (forall k :: 0 <= k < |s.table| ==> s.table[k].tag >= 0)
    ensures AddMandatory(s, AddMandatory(s, kept, 0), 0) == AddMandatory(s, kept, 0)
  {
    hide MustBe, HasTag, AddMandatory, ValidTable;
    var r := AddMandatory(s, kept, 0);
    if HasTag(kept, 0) {
      ZeroBlocks(s, kept, 0);
    } else if MustBe(s, 0) {
      ZeroFirst(s, kept);
      ZeroBlocks(s, r, 0);
    } else {
      AddsAll(s, kept, 0);
      NothingToAdd(s, r, 0);
    }
  }

  /** Idempotence: repairing a repaired directory changes nothing. */
  lemma {:induction false} FixedTwice(s: Setting, es: seq<Entry>)
    requires ValidSetting(s) && Repairable(s, es) && forall k :: 0 <= k < |s.table| ==> s.table[k].tag >= 0
    ensures AllSized(Fixed(s, es)) && Fixed(s, Fixed(s, es)) == Fixed(s, es)
  {
    hide Removed, AddMandatory, Survivors, FixAll, AllSized, MustBe, MayStay, ValidTable, DistinctTags;
    EntriesSettled(s, es);
    FixedMeaning(s, es);
    NothingRemoved(s, Fixed(s, es));
    NothingAdded(s, Removed(s, FixAll(es, s.order)));
  }
}
