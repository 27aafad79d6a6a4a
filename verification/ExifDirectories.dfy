/** Walking directories that are in place, in closed form. */
module ExifDirectories {
  import opened Bytes
  import opened Tiff
  import opened ExifTypes
  import opened ExifLoad
  import opened ExifWalk
  import opened ExifSorted

  /** A directory at `at`: its count and its records; those of entries with their values. */
  ghost predicate DirPlaced(x: Input, ifd: Ifd, at: nat, items: seq<Item>)
    requires ValidInput(x)
  {
    && |items| < U16 && at + 2 + 12 * |items| + 4 <= |x.d|
    && LiesAt(x.d, at, EncShort(|items|, x.order))
    && StrictlySorted(items)
    && forall k :: 0 <= k < |items| && !Special(items[k].slot.tag) ==> EntryPlaced(x, ifd, items[k], at + 2 + 12 * k)
  }

  /** Where the maker note among the first `n` records has its value. */
  function NoteAt(items: seq<Item>, at: nat, n: nat, base: nat): (r: int)
    requires n <= |items|
  {
    if n == 0 then base
    else if items[n - 1].slot.tag == TAG_MAKER_NOTE then ValueAt(items[n - 1], at + 12 * (n - 1))
    else NoteAt(items, at, n - 1, base)
  }

  /** All values lie at a position. */
  predicate PointersPositive(items: seq<Item>)
  {
    forall k :: 0 <= k < |items| ==> |items[k].slot.payload| > 4 ==> items[k].ptr >= 0
  }

  lemma {:induction false} NoteAtIsPosition(items: seq<Item>, at: nat, n: nat, base: nat)
    requires n <= |items| && PointersPositive(items)
    ensures NoteAt(items, at, n, base) >= 0
  {
    if n > 0 {
      NoteAtIsPosition(items, at, n - 1, base);
    }
  }

  lemma {:induction false} NoNote(items: seq<Item>, at: nat, n: nat, base: nat)
    requires n <= |items| && forall k :: 0 <= k < n ==> items[k].slot.tag != TAG_MAKER_NOTE
    ensures NoteAt(items, at, n, base) == base
  {
    if n > 0 {
      NoNote(items, at, n - 1, base);
    }
  }

  predicate Seen(items: seq<Item>, tag: int, k: nat)
    requires k <= |items|
  {
    exists j :: 0 <= j < k && items[j].slot.tag == tag
  }

  /** The state after the first `k` records, not counting what their pointers led to. */
  function Base(st: State, ifd: Ifd, items: seq<Item>, at: nat, k: nat): State
    requires k <= |items| && PointersPositive(items)
  {
    NoteAtIsPosition(items, at, k, st.mnote);
    State(st.contents.With(ifd, Kept(items, k)), st.used, st.thumb, NoteAt(items, at, k, st.mnote), st.visits)
  }

  function Visited(st: State, ifd: Ifd, at: nat, n: nat, path: seq<nat>): State
  {
    st.(visits := st.visits + [Visit(ifd, at, n, path)])
  }

  lemma {:induction false} KeptBelow(items: seq<Item>, k: nat, tag: int)
    requires k <= |items| && forall j :: 0 <= j < k ==> items[j].slot.tag < tag
    ensures !HasTag(Kept(items, k), tag)
  {
    KeptTags(items, k, tag);
  }

  lemma {:induction false} KeptTags(items: seq<Item>, k: nat, tag: int)
    requires k <= |items| && forall j :: 0 <= j < k ==> items[j].slot.tag < tag
    ensures forall i :: 0 <= i < |Kept(items, k)| ==> Kept(items, k)[i].tag < tag
  {
    if k > 0 {
      KeptTags(items, k - 1, tag);
    }
  }

  /** Storing the entry of record `k`. */
  lemma {:induction false} StoreNext(st: State, ifd: Ifd, items: seq<Item>, at: nat, k: nat)
    requires k < |items| && PointersPositive(items) && StrictlySorted(items) && !Special(items[k].slot.tag)
    requires ValueAt(items[k], at + 12 * k) >= 0
    ensures Stored(Base(st, ifd, items, at, k), ifd, EntryOf(items[k]), ValueAt(items[k], at + 12 * k))
      == Base(st, ifd, items, at, k + 1)
  {
    hide HasTag;
    KeptBelow(items, k, items[k].slot.tag);
    assert AddEntry(Kept(items, k), EntryOf(items[k])) == Kept(items, k + 1);
    WithTwice(st.contents, ifd, Kept(items, k), Kept(items, k + 1));
  }

  lemma {:induction false} WithTwice(c: Contents, i: Ifd, a: seq<Entry>, b: seq<Entry>)
    ensures c.With(i, a).With(i, b) == c.With(i, b)
  {
  }

  lemma {:induction false} WithSame(c: Contents, i: Ifd)
    ensures c.With(i, c.Of(i)) == c
  {
  }

  lemma {:induction false} WithSwap(c: Contents, i: Ifd, a: seq<Entry>, j: Ifd, b: seq<Entry>)
    requires i != j
    ensures c.With(i, a).With(j, b) == c.With(j, b).With(i, a)
  {
  }

  /** A pointer record leaves the entries alone. */
  lemma {:induction false} BaseSkips(st: State, ifd: Ifd, items: seq<Item>, at: nat, k: nat)
    requires k < |items| && PointersPositive(items) && Special(items[k].slot.tag)
    ensures Base(st, ifd, items, at, k) == Base(st, ifd, items, at, k + 1)
  {
  }

  lemma {:induction false} BaseStart(st: State, ifd: Ifd, items: seq<Item>, at: nat)
    requires st.contents.Of(ifd) == [] && PointersPositive(items)
    ensures Base(st, ifd, items, at, 0) == st
  {
    WithSame(st.contents, ifd);
  }

  lemma {:induction false} CountInPlace(x: Input, ifd: Ifd, at: nat, items: seq<Item>)
    requires ValidInput(x) && DirPlaced(x, ifd, at, items)
    ensures RecordCount(x, at) == |items| && !CheckOverflow(at, |x.d|, 2)
  {
    hide EntryPlaced, StrictlySorted, Special, TagTable.ValidTable;
    ShortAt(x.d, at, |items|, x.order);
  }

  /** Loading a directory in place is a chain of turns of the loop. */
  lemma {:induction false} LoadChain(st: State, ifd: Ifd, x: Input, at: nat, path: seq<nat>, items: seq<Item>,
                                     ls: seq<Loop>)
    requires ValidInput(x) && DirPlaced(x, ifd, at, items) && PathCost(path) <= MAX_COST
    requires |ls| == |items| + 1 && ls[0] == Loop(Visited(st, ifd, at, |items|, path), 0, 0, false)
    requires forall j :: 0 <= j < |items| ==>
      !ls[j].stop && StepRecord(ls[j], ifd, x, at + 2, |items|, j, path) == ls[j + 1]
    ensures LoadContent(st, ifd, x, at, path) == ls[|items|].st
  {
    hide StepRecord, RecordCount, EntryPlaced, StrictlySorted, TagTable.ValidTable, PathCost;
    CountInPlace(x, ifd, at, items);
    Chain(ls, ifd, x, at + 2, |items|, 0, path);
  }

  // ---- A directory without pointers ----

  function Leaf(st: State, ifd: Ifd, items: seq<Item>, at: nat, path: seq<nat>): State
    requires PointersPositive(items)
  {
    Base(Visited(st, ifd, at, |items|, path), ifd, items, at + 2, |items|)
  }

  lemma {:induction false} BaseStep(l: Loop, s: State, ifd: Ifd, x: Input, at: nat, items: seq<Item>, k: nat,
                                    path: seq<nat>)
    requires ValidInput(x) && DirPlaced(x, ifd, at, items) && PointersPositive(items)
    requires k < |items| && !Special(items[k].slot.tag)
    requires l.st == Base(s, ifd, items, at + 2, k)
    ensures StepRecord(l, ifd, x, at + 2, |items|, k, path) == l.(st := Base(s, ifd, items, at + 2, k + 1))
  {
    hide Base, Stored, EntryOf, ValueAt, EntryPlaced, StepRecord, PointersPositive, StrictlySorted, ValidInput;
    StepEntry(l, ifd, x, at + 2, |items|, k, path, items[k]);
    StoreNext(s, ifd, items, at + 2, k);
  }

  lemma {:induction false} LoadLeaf(st: State, ifd: Ifd, x: Input, at: nat, path: seq<nat>, items: seq<Item>)
    requires ValidInput(x) && DirPlaced(x, ifd, at, items) && PointersPositive(items) && PathCost(path) <= MAX_COST
    requires forall k :: 0 <= k < |items| ==> !Special(items[k].slot.tag)
    requires st.contents.Of(ifd) == []
    ensures LoadContent(st, ifd, x, at, path) == Leaf(st, ifd, items, at, path)
  {
    hide Base, StepRecord, LoadContent, PathCost, DirPlaced, ValidInput, Special;
    var n := |items|;
    var v := Visited(st, ifd, at, n, path);
    var ls := seq(n + 1, k requires 0 <= k < n + 1 => Loop(Base(v, ifd, items, at + 2, k), 0, 0, false));
    BaseStart(v, ifd, items, at + 2);
    DirFits(x, ifd, at, items);
    forall j | 0 <= j < n ensures StepRecord(ls[j], ifd, x, at + 2, n, j, path) == ls[j + 1] {
      BaseStep(ls[j], v, ifd, x, at, items, j, path);
    }
    LoadChain(st, ifd, x, at, path, items, ls);
  }

  lemma {:induction false} DirFits(x: Input, ifd: Ifd, at: nat, items: seq<Item>)
    requires ValidInput(x) && DirPlaced(x, ifd, at, items)
    ensures at + 2 + 12 * |items| <= |x.d| && StrictlySorted(items)
  {
    hide EntryPlaced, StrictlySorted, ValidInput;
  }

  // ---- The EXIF directory: entries, and perhaps a pointer to the Interoperability directory ----

  function Marked(st: State, i: Ifd): State { st.(used := st.used.Mark(i)) }

  lemma {:induction false} StoredThenLeaf(st: State, ifd: Ifd, e: Entry, at: nat, sub: Ifd, items: seq<Item>,
                                          subAt: nat, path: seq<nat>)
    requires PointersPositive(items) && ifd != sub && e.tag != TAG_MAKER_NOTE
    ensures Stored(Leaf(Marked(st, sub), sub, items, subAt, path), ifd, e, at)
         == Leaf(Marked(Stored(st, ifd, e, at), sub), sub, items, subAt, path)
  {
    hide AddEntry, Kept, PointersPositive;
    WithSwap(st.contents, ifd, AddEntry(st.contents.Of(ifd), e), sub, Kept(items, |items|));
  }

  /** The state after the first `k` records of the EXIF directory. */
  function ExifAfter(v: State, items: seq<Item>, at: nat, k: nat, sub: seq<Item>, subAt: nat, path: seq<nat>): State
    requires k <= |items| && PointersPositive(items) && PointersPositive(sub)
  {
    var b := Base(v, ExifIfd, items, at + 2, k);
    if Seen(items, TAG_INTEROP_POINTER, k) then Leaf(Marked(b, InteropIfd), InteropIfd, sub, subAt, path + [|items|])
      else b
  }

  function ExifResult(st: State, items: seq<Item>, at: nat, sub: seq<Item>, subAt: nat, path: seq<nat>): State
    requires PointersPositive(items) && PointersPositive(sub)
  {
    ExifAfter(Visited(st, ExifIfd, at, |items|, path), items, at, |items|, sub, subAt, path)
  }

  /** What the loader finds behind the EXIF pointer. */
  ghost predicate ExifPlaced(x: Input, at: nat, items: seq<Item>, sub: seq<Item>, subAt: nat)
    requires ValidInput(x)
  {
    && DirPlaced(x, ExifIfd, at, items) && PointersPositive(items) && PointersPositive(sub)
    && (forall k :: 0 <= k < |items| && Special(items[k].slot.tag) ==>
        items[k].slot.tag == TAG_INTEROP_POINTER && PointerPlaced(x, TAG_INTEROP_POINTER, subAt, at + 2 + 12 * k))
    && (Seen(items, TAG_INTEROP_POINTER, |items|) ==>
        DirPlaced(x, InteropIfd, subAt, sub) && forall k :: 0 <= k < |sub| ==> !Special(sub[k].slot.tag))
  }

  lemma {:induction false} SeenNext(items: seq<Item>, tag: int, k: nat)
    requires k < |items|
    ensures Seen(items, tag, k + 1) <==> Seen(items, tag, k) || items[k].slot.tag == tag
  {
    if Seen(items, tag, k) {
      var j :| 0 <= j < k && items[j].slot.tag == tag;
    }
    if items[k].slot.tag == tag {
      assert 0 <= k < k + 1 && items[k].slot.tag == tag;
    }
  }

  lemma {:induction false} SeenBelow(items: seq<Item>, tag: int, k: nat)
    requires k < |items| && StrictlySorted(items) && Seen(items, tag, k)
    ensures tag < items[k].slot.tag
  {
  }

  lemma {:induction false} ExifEntryStep(v: State, x: Input, at: nat, items: seq<Item>, k: nat, sub: seq<Item>,
                                         subAt: nat, path: seq<nat>)
    requires ValidInput(x) && ExifPlaced(x, at, items, sub, subAt) && k < |items| && !Special(items[k].slot.tag)
    ensures at + 2 + 12 * |items| <= |x.d|
    ensures StepRecord(Loop(ExifAfter(v, items, at, k, sub, subAt, path), 0, 0, false), ExifIfd, x, at + 2, |items|, k,
      path)
         == Loop(ExifAfter(v, items, at, k + 1, sub, subAt, path), 0, 0, false)
  {
    hide Base, StepRecord, Stored, EntryOf, ValueAt, EntryPlaced, Leaf, Seen, ValidInput, PointersPositive;
    hide StrictlySorted;
    var l := Loop(ExifAfter(v, items, at, k, sub, subAt, path), 0, 0, false);
    SeenNext(items, TAG_INTEROP_POINTER, k);
    if Seen(items, TAG_INTEROP_POINTER, k) {
      SeenBelow(items, TAG_INTEROP_POINTER, k);
      var b := Base(v, ExifIfd, items, at + 2, k);
      StepEntry(l, ExifIfd, x, at + 2, |items|, k, path, items[k]);
      StoreNext(v, ExifIfd, items, at + 2, k);
      assert EntryOf(items[k]).tag != TAG_MAKER_NOTE by { EntryTag(items[k]); }
      StoredThenLeaf(b, ExifIfd, EntryOf(items[k]), ValueAt(items[k], at + 2 + 12 * k), InteropIfd, sub, subAt,
        path + [|items|]);
    } else {
      BaseStep(l, v, ExifIfd, x, at, items, k, path);
    }
  }

  lemma {:induction false} EntryTag(i: Item)
    ensures EntryOf(i).tag == i.slot.tag
  {
  }

  lemma {:induction false} ExifPointerStep(v: State, x: Input, at: nat, items: seq<Item>, k: nat, sub: seq<Item>,
                                           subAt: nat, path: seq<nat>)
    requires ValidInput(x) && ExifPlaced(x, at, items, sub, subAt) && k < |items| && Special(items[k].slot.tag)
    requires v.contents.interop == [] && !v.used.interop && PathCost(path + [|items|]) <= MAX_COST
    ensures at + 2 + 12 * |items| <= |x.d|
    ensures StepRecord(Loop(ExifAfter(v, items, at, k, sub, subAt, path), 0, 0, false), ExifIfd, x, at + 2, |items|, k,
      path)
         == Loop(ExifAfter(v, items, at, k + 1, sub, subAt, path), 0, 0, false)
  {
    hide StepRecord, DirPlaced, PointerPlaced, Leaf, Seen, ValidInput, PointersPositive, StrictlySorted, LoadContent;
    hide PathCost, NoteAt, Kept;
    var l := Loop(ExifAfter(v, items, at, k, sub, subAt, path), 0, 0, false);
    DirFits(x, ExifIfd, at, items);
    SeenNext(items, TAG_INTEROP_POINTER, k);
    assert !Seen(items, TAG_INTEROP_POINTER, k) by {
      if Seen(items, TAG_INTEROP_POINTER, k) {
        SeenBelow(items, TAG_INTEROP_POINTER, k);
      }
    }
    assert Seen(items, TAG_INTEROP_POINTER, |items|) by { SeenAll(items, TAG_INTEROP_POINTER, k); }
    BaseSkips(v, ExifIfd, items, at + 2, k);
    StepPointer(l, ExifIfd, x, at + 2, |items|, k, path, TAG_INTEROP_POINTER, subAt);
    LoadLeaf(Marked(l.st, InteropIfd), InteropIfd, x, subAt, path + [|items|], sub);
  }

  lemma {:induction false} SeenAll(items: seq<Item>, tag: int, k: nat)
    requires k < |items| && items[k].slot.tag == tag
    ensures Seen(items, tag, |items|)
  {
  }

  lemma {:induction false} ExifStart(v: State, items: seq<Item>, at: nat, sub: seq<Item>, subAt: nat, path: seq<nat>)
    requires PointersPositive(items) && PointersPositive(sub) && v.contents.exif == []
    ensures ExifAfter(v, items, at, 0, sub, subAt, path) == v
  {
    BaseStart(v, ExifIfd, items, at + 2);
  }

  lemma {:induction false} LoadExif(st: State, x: Input, at: nat, items: seq<Item>, sub: seq<Item>, subAt: nat,
                                    path: seq<nat>)
    requires ValidInput(x) && ExifPlaced(x, at, items, sub, subAt)
    requires st.contents.exif == [] && st.contents.interop == [] && !st.used.interop
    requires PathCost(path) <= MAX_COST && PathCost(path + [|items|]) <= MAX_COST
    ensures LoadContent(st, ExifIfd, x, at, path) == ExifResult(st, items, at, sub, subAt, path)
  {
    hide ExifAfter, StepRecord, LoadContent, PathCost, DirPlaced, ValidInput, Special, Seen, PointerPlaced;
    var n := |items|;
    var v := Visited(st, ExifIfd, at, n, path);
    var ls := seq(n + 1, k requires 0 <= k < n + 1 => Loop(ExifAfter(v, items, at, k, sub, subAt, path), 0, 0, false));
    ExifStart(v, items, at, sub, subAt, path);
    DirFits(x, ExifIfd, at, items);
    forall j | 0 <= j < n ensures StepRecord(ls[j], ExifIfd, x, at + 2, n, j, path) == ls[j + 1] {
      if Special(items[j].slot.tag) {
        ExifPointerStep(v, x, at, items, j, sub, subAt, path);
      } else {
        ExifEntryStep(v, x, at, items, j, sub, subAt, path);
      }
    }
    LoadChain(st, ExifIfd, x, at, path, items, ls);
  }

  // ---- IFD 0: entries, and perhaps pointers to the EXIF and GPS directories ----

  datatype Dir = Dir(at: nat, items: seq<Item>)

  /** The five directories of a file. */
  datatype Dirs = Dirs(ifd0: Dir, exif: Dir, interop: Dir, gps: Dir, ifd1: Dir)

  /** `st` with other entries in one directory. */
  function Replaced(st: State, i: Ifd, es: seq<Entry>): State { st.(contents := st.contents.With(i, es)) }

  lemma {:induction false} ReplacedMarked(st: State, i: Ifd, es: seq<Entry>, sub: Ifd)
    ensures Marked(Replaced(st, i, es), sub) == Replaced(Marked(st, sub), i, es)
  {
  }

  lemma {:induction false} ReplacedLeaf(st: State, i: Ifd, es: seq<Entry>, sub: Ifd, items: seq<Item>, at: nat,
                                        path: seq<nat>)
    requires PointersPositive(items) && i != sub
    ensures Leaf(Replaced(st, i, es), sub, items, at, path) == Replaced(Leaf(st, sub, items, at, path), i, es)
  {
    hide Kept, PointersPositive;
    WithSwap(st.contents, i, es, sub, Kept(items, |items|));
  }

  lemma {:induction false} ReplacedBase(st: State, i: Ifd, es: seq<Entry>, sub: Ifd, items: seq<Item>, at: nat, k: nat)
    requires PointersPositive(items) && i != sub && k <= |items|
    ensures Base(Replaced(st, i, es), sub, items, at, k) == Replaced(Base(st, sub, items, at, k), i, es)
  {
    hide Kept, PointersPositive;
    WithSwap(st.contents, i, es, sub, Kept(items, k));
  }

  lemma {:induction false} ReplacedExif(st: State, es: seq<Entry>, items: seq<Item>, at: nat, sub: seq<Item>,
                                        subAt: nat, path: seq<nat>)
    requires PointersPositive(items) && PointersPositive(sub)
    ensures ExifResult(Replaced(st, Ifd0, es), items, at, sub, subAt, path)
      == Replaced(ExifResult(st, items, at, sub, subAt, path), Ifd0, es)
  {
    hide Base, Leaf, PointersPositive, Seen;
    var v := Visited(st, ExifIfd, at, |items|, path);
    var b := Base(v, ExifIfd, items, at + 2, |items|);
    assert Visited(Replaced(st, Ifd0, es), ExifIfd, at, |items|, path) == Replaced(v, Ifd0, es);
    ReplacedBase(v, Ifd0, es, ExifIfd, items, at + 2, |items|);
    ReplacedMarked(b, Ifd0, es, InteropIfd);
    ReplacedLeaf(Marked(b, InteropIfd), Ifd0, es, InteropIfd, sub, subAt, path + [|items|]);
  }

  /** As long as no maker note has come, the records so far only give entries. */
  lemma {:induction false} BaseReplaces(st: State, ifd: Ifd, items: seq<Item>, at: nat, k: nat)
    requires k <= |items| && PointersPositive(items)
    requires forall j :: 0 <= j < k ==> items[j].slot.tag != TAG_MAKER_NOTE
    ensures Base(st, ifd, items, at, k) == Replaced(st, ifd, Kept(items, k))
  {
    hide PointersPositive;
    NoNote(items, at, k, st.mnote);
  }

  ghost predicate Positive(D: Dirs)
  {
    && PointersPositive(D.ifd0.items) && PointersPositive(D.exif.items) && PointersPositive(D.interop.items)
    && PointersPositive(D.gps.items) && PointersPositive(D.ifd1.items)
  }

  ghost function ExifPart(st: State, D: Dirs, k: nat): State
    requires Positive(D) && k <= |D.ifd0.items|
  {
    if Seen(D.ifd0.items, TAG_EXIF_POINTER, k) then
      ExifResult(Marked(st, ExifIfd), D.exif.items, D.exif.at, D.interop.items, D.interop.at, [|D.ifd0.items|])
    else st
  }

  ghost function GpsPart(st: State, D: Dirs, k: nat): State
    requires Positive(D) && k <= |D.ifd0.items|
  {
    if Seen(D.ifd0.items, TAG_GPS_POINTER, k) then
      Leaf(Marked(st, GpsIfd), GpsIfd, D.gps.items, D.gps.at, [|D.ifd0.items|])
    else st
  }

  /** The state after the first `k` records of IFD 0. */
  ghost function Ifd0After(v: State, D: Dirs, k: nat): State
    requires Positive(D) && k <= |D.ifd0.items|
  {
    Base(GpsPart(ExifPart(v, D, k), D, k), Ifd0, D.ifd0.items, D.ifd0.at + 2, k)
  }

  ghost function Ifd0Result(st: State, D: Dirs): State
    requires Positive(D)
  {
    Ifd0After(Visited(st, Ifd0, D.ifd0.at, |D.ifd0.items|, []), D, |D.ifd0.items|)
  }

  /** What the loader finds behind the pointer to IFD 0. */
  ghost predicate Ifd0Placed(x: Input, D: Dirs)
    requires ValidInput(x)
  {
    && Positive(D)
    && DirPlaced(x, Ifd0, D.ifd0.at, D.ifd0.items)
    && (forall k :: 0 <= k < |D.ifd0.items| && Special(D.ifd0.items[k].slot.tag) ==> Ifd0Pointer(x, D, k))
    && (Seen(D.ifd0.items, TAG_EXIF_POINTER, |D.ifd0.items|) ==>
        ExifPlaced(x, D.exif.at, D.exif.items, D.interop.items, D.interop.at))
    && (Seen(D.ifd0.items, TAG_GPS_POINTER, |D.ifd0.items|) ==>
        DirPlaced(x, GpsIfd, D.gps.at, D.gps.items) && forall k :: 0 <= k < |D.gps.items| ==>
          !Special(D.gps.items[k].slot.tag))
  }

  ghost predicate Ifd0Pointer(x: Input, D: Dirs, k: nat)
    requires k < |D.ifd0.items|
  {
    var tag, pos := D.ifd0.items[k].slot.tag, D.ifd0.at + 2 + 12 * k;
    || (tag == TAG_EXIF_POINTER && PointerPlaced(x, TAG_EXIF_POINTER, D.exif.at, pos))
    || (tag == TAG_GPS_POINTER && PointerPlaced(x, TAG_GPS_POINTER, D.gps.at, pos))
  }

  /** Nothing loaded yet, and the recursion cost of the file within the guard. */
  ghost predicate FreshFor(v: State, D: Dirs)
  {
    && v.contents == EMPTY && v.used == Used(false, false, false)
    && PathCost([|D.ifd0.items|]) <= MAX_COST
    && PathCost([|D.ifd0.items|] + [|D.exif.items|]) <= MAX_COST
  }

  lemma {:induction false} Ifd0EntryStep(v: State, x: Input, D: Dirs, k: nat)
    requires ValidInput(x) && Ifd0Placed(x, D) && k < |D.ifd0.items| && !Special(D.ifd0.items[k].slot.tag)
    ensures D.ifd0.at + 2 + 12 * |D.ifd0.items| <= |x.d|
    ensures StepRecord(Loop(Ifd0After(v, D, k), 0, 0, false), Ifd0, x, D.ifd0.at + 2, |D.ifd0.items|, k, [])
         == Loop(Ifd0After(v, D, k + 1), 0, 0, false)
  {
    hide Base, StepRecord, Seen, ValidInput, PointersPositive, DirPlaced, Ifd0Pointer, ExifPlaced, ExifResult, Leaf;
    hide Marked;
    var items := D.ifd0.items;
    DirFits(x, Ifd0, D.ifd0.at, items);
    SeenNext(items, TAG_EXIF_POINTER, k);
    SeenNext(items, TAG_GPS_POINTER, k);
    BaseStep(Loop(Ifd0After(v, D, k), 0, 0, false), GpsPart(ExifPart(v, D, k), D, k), Ifd0, x, D.ifd0.at, items, k, []);
  }

  /** Up to the pointers no maker note has come. */
  lemma {:induction false} NoNoteYet(items: seq<Item>, k: nat)
    requires k < |items| && StrictlySorted(items) && items[k].slot.tag <= TAG_MAKER_NOTE
    ensures forall j :: 0 <= j < k ==> items[j].slot.tag != TAG_MAKER_NOTE
  {
  }

  lemma {:induction false} NotYet(items: seq<Item>, tag: int, k: nat)
    requires k < |items| && StrictlySorted(items) && items[k].slot.tag <= tag
    ensures !Seen(items, tag, k)
  {
  }

  lemma {:induction false} ExifPointerAt(v: State, x: Input, D: Dirs, k: nat)
    requires ValidInput(x) && Ifd0Placed(x, D) && k < |D.ifd0.items| && D.ifd0.items[k].slot.tag == TAG_EXIF_POINTER
    requires FreshFor(v, D)
    ensures D.ifd0.at + 2 + 12 * |D.ifd0.items| <= |x.d|
    ensures StepRecord(Loop(Ifd0After(v, D, k), 0, 0, false), Ifd0, x, D.ifd0.at + 2, |D.ifd0.items|, k, [])
         == Loop(Ifd0After(v, D, k + 1), 0, 0, false)
  {
    hide StepRecord, Seen, ValidInput, PointersPositive, DirPlaced, ExifPlaced, PointerPlaced, ExifResult, Leaf;
    hide LoadContent, PathCost, Kept, NoteAt, StrictlySorted;
    var items, at := D.ifd0.items, D.ifd0.at;
    var n := |items|;
    var es := Kept(items, k);
    DirFits(x, Ifd0, at, items);
    NotYet(items, TAG_EXIF_POINTER, k);
    NotYet(items, TAG_GPS_POINTER, k);
    SeenNext(items, TAG_EXIF_POINTER, k);
    SeenNext(items, TAG_GPS_POINTER, k);
    SeenAll(items, TAG_EXIF_POINTER, k);
    NoNoteYet(items, k);
    BaseReplaces(v, Ifd0, items, at + 2, k);
    var l := Loop(Replaced(v, Ifd0, es), 0, 0, false);
    StepPointer(l, Ifd0, x, at + 2, n, k, [], TAG_EXIF_POINTER, D.exif.at);
    var m := Marked(Replaced(v, Ifd0, es), ExifIfd);
    assert [] + [n] == [n];
    LoadExif(m, x, D.exif.at, D.exif.items, D.interop.items, D.interop.at, [n]);
    ReplacedMarked(v, Ifd0, es, ExifIfd);
    ReplacedExif(Marked(v, ExifIfd), es, D.exif.items, D.exif.at, D.interop.items, D.interop.at, [n]);
    BaseSkips(ExifPart(v, D, k + 1), Ifd0, items, at + 2, k);
    BaseReplaces(ExifPart(v, D, k + 1), Ifd0, items, at + 2, k);
  }

  lemma {:induction false} ExifPartKeepsGps(v: State, D: Dirs, k: nat)
    requires Positive(D) && k <= |D.ifd0.items|
    ensures ExifPart(v, D, k).contents.gps == v.contents.gps && ExifPart(v, D, k).used.gps == v.used.gps
  {
    hide PointersPositive, NoteAt, Kept, Seen;
  }

  lemma {:induction false} GpsPointerAt(v: State, x: Input, D: Dirs, k: nat)
    requires ValidInput(x) && Ifd0Placed(x, D) && k < |D.ifd0.items| && D.ifd0.items[k].slot.tag == TAG_GPS_POINTER
    requires FreshFor(v, D)
    ensures D.ifd0.at + 2 + 12 * |D.ifd0.items| <= |x.d|
    ensures StepRecord(Loop(Ifd0After(v, D, k), 0, 0, false), Ifd0, x, D.ifd0.at + 2, |D.ifd0.items|, k, [])
         == Loop(Ifd0After(v, D, k + 1), 0, 0, false)
  {
    hide StepRecord, Seen, ValidInput, PointersPositive, DirPlaced, ExifPlaced, PointerPlaced, ExifResult, Leaf;
    hide LoadContent, PathCost, Kept, NoteAt, StrictlySorted;
    var items, at := D.ifd0.items, D.ifd0.at;
    var n := |items|;
    var es := Kept(items, k);
    var s := ExifPart(v, D, k);
    DirFits(x, Ifd0, at, items);
    NotYet(items, TAG_GPS_POINTER, k);
    SeenNext(items, TAG_EXIF_POINTER, k);
    SeenNext(items, TAG_GPS_POINTER, k);
    SeenAll(items, TAG_GPS_POINTER, k);
    NoNoteYet(items, k);
    BaseReplaces(s, Ifd0, items, at + 2, k);
    ExifPartKeepsGps(v, D, k);
    var l := Loop(Replaced(s, Ifd0, es), 0, 0, false);
    StepPointer(l, Ifd0, x, at + 2, n, k, [], TAG_GPS_POINTER, D.gps.at);
    var m := Marked(Replaced(s, Ifd0, es), GpsIfd);
    assert [] + [n] == [n];
    LoadLeaf(m, GpsIfd, x, D.gps.at, [n], D.gps.items);
    ReplacedMarked(s, Ifd0, es, GpsIfd);
    ReplacedLeaf(Marked(s, GpsIfd), Ifd0, es, GpsIfd, D.gps.items, D.gps.at, [n]);
    BaseSkips(GpsPart(s, D, k + 1), Ifd0, items, at + 2, k);
    BaseReplaces(GpsPart(s, D, k + 1), Ifd0, items, at + 2, k);
  }

  lemma {:induction false} Ifd0Start(v: State, D: Dirs)
    requires Positive(D) && v.contents.ifd0 == []
    ensures Ifd0After(v, D, 0) == v
  {
    hide PointersPositive;
    BaseStart(v, Ifd0, D.ifd0.items, D.ifd0.at + 2);
  }

  lemma {:induction false} Ifd0Step(v: State, x: Input, D: Dirs, k: nat)
    requires ValidInput(x) && Ifd0Placed(x, D) && k < |D.ifd0.items| && FreshFor(v, D)
    ensures D.ifd0.at + 2 + 12 * |D.ifd0.items| <= |x.d|
    ensures StepRecord(Loop(Ifd0After(v, D, k), 0, 0, false), Ifd0, x, D.ifd0.at + 2, |D.ifd0.items|, k, [])
         == Loop(Ifd0After(v, D, k + 1), 0, 0, false)
  {
    hide StepRecord, Seen, ValidInput, PointersPositive, DirPlaced, ExifPlaced, PointerPlaced, Ifd0After, FreshFor;
    hide Special;
    if !Special(D.ifd0.items[k].slot.tag) {
      Ifd0EntryStep(v, x, D, k);
    } else {
      assert Ifd0Pointer(x, D, k);
      if D.ifd0.items[k].slot.tag == TAG_EXIF_POINTER {
        ExifPointerAt(v, x, D, k);
      } else {
        GpsPointerAt(v, x, D, k);
      }
    }
  }

  /** Loading IFD 0 and all it points to. */
  lemma {:induction false} LoadIfd0(st: State, x: Input, D: Dirs)
    requires ValidInput(x) && Ifd0Placed(x, D) && FreshFor(st, D)
    ensures LoadContent(st, Ifd0, x, D.ifd0.at, []) == Ifd0Result(st, D)
  {
    hide Ifd0After, StepRecord, LoadContent, DirPlaced, ValidInput, Seen, Ifd0Pointer, ExifPlaced, PointersPositive;
    hide Special;
    var n := |D.ifd0.items|;
    var v := Visited(st, Ifd0, D.ifd0.at, n, []);
    var ls := seq(n + 1, k requires 0 <= k < n + 1 => Loop(Ifd0After(v, D, k), 0, 0, false));
    Ifd0Start(v, D);
    DirFits(x, Ifd0, D.ifd0.at, D.ifd0.items);
    forall j | 0 <= j < n ensures StepRecord(ls[j], Ifd0, x, D.ifd0.at + 2, n, j, []) == ls[j + 1] {
      Ifd0Step(v, x, D, j);
    }
    LoadChain(st, Ifd0, x, D.ifd0.at, [], D.ifd0.items, ls);
  }

  // ---- IFD 1: entries, and perhaps the thumbnail ----

  /** The state after the first `k` records of IFD 1; the thumbnail is read once its length is known. */
  ghost function Ifd1After(v: State, items: seq<Item>, at: nat, k: nat, to: nat, thumb: bytes): Loop
    requires PointersPositive(items) && k <= |items|
  {
    Loop(Base(if Seen(items, TAG_THUMBNAIL_LENGTH, k) then v.(thumb := thumb) else v, Ifd1, items, at + 2, k),
         if Seen(items, TAG_THUMBNAIL, k) then to else 0,
         if Seen(items, TAG_THUMBNAIL_LENGTH, k) then |thumb| else 0,
         false)
  }

  /** What the loader finds behind the link to IFD 1; the thumbnail lies at `to`. */
  ghost predicate Ifd1Placed(x: Input, at: nat, items: seq<Item>, to: nat, thumb: bytes)
    requires ValidInput(x)
  {
    && PointersPositive(items) && DirPlaced(x, Ifd1, at, items)
    && (Seen(items, TAG_THUMBNAIL, |items|) <==> thumb != [])
      && (Seen(items, TAG_THUMBNAIL_LENGTH, |items|) <==> thumb != [])
    && to > 0 && LiesAt(x.d, to, thumb)
    && forall k :: 0 <= k < |items| && Special(items[k].slot.tag) ==> Ifd1Pointer(x, at, items, k, to, |thumb|)
  }

  ghost predicate Ifd1Pointer(x: Input, at: nat, items: seq<Item>, k: nat, to: nat, tl: nat)
    requires k < |items|
  {
    var tag, pos := items[k].slot.tag, at + 2 + 12 * k;
    || (tag == TAG_THUMBNAIL && PointerPlaced(x, TAG_THUMBNAIL, to, pos))
    || (tag == TAG_THUMBNAIL_LENGTH && PointerPlaced(x, TAG_THUMBNAIL_LENGTH, tl, pos))
  }

  lemma {:induction false} Ifd1EntryStep(v: State, x: Input, at: nat, items: seq<Item>, k: nat, to: nat, thumb: bytes)
    requires ValidInput(x) && Ifd1Placed(x, at, items, to, thumb) && k < |items| && !Special(items[k].slot.tag)
    ensures at + 2 + 12 * |items| <= |x.d|
    ensures StepRecord(Ifd1After(v, items, at, k, to, thumb), Ifd1, x, at + 2, |items|, k, [])
      == Ifd1After(v, items, at, k + 1, to, thumb)
  {
    hide Base, StepRecord, Seen, ValidInput, PointersPositive, DirPlaced, Ifd1Pointer, LiesAt;
    DirFits(x, Ifd1, at, items);
    SeenNext(items, TAG_THUMBNAIL, k);
    SeenNext(items, TAG_THUMBNAIL_LENGTH, k);
    BaseStep(Ifd1After(v, items, at, k, to, thumb), if Seen(items, TAG_THUMBNAIL_LENGTH, k) then v.(thumb := thumb)
      else v,
             Ifd1, x, at, items, k, []);
  }

  lemma {:induction false} ThumbnailStep(v: State, x: Input, at: nat, items: seq<Item>, k: nat, to: nat, thumb: bytes)
    requires ValidInput(x) && Ifd1Placed(x, at, items, to, thumb) && k < |items| && items[k].slot.tag == TAG_THUMBNAIL
    ensures at + 2 + 12 * |items| <= |x.d|
    ensures StepRecord(Ifd1After(v, items, at, k, to, thumb), Ifd1, x, at + 2, |items|, k, [])
      == Ifd1After(v, items, at, k + 1, to, thumb)
  {
    hide Base, StepRecord, Seen, ValidInput, PointersPositive, DirPlaced, PointerPlaced, LiesAt, StrictlySorted;
    hide LoadThumbnail;
    assert Ifd1Pointer(x, at, items, k, to, |thumb|);
    DirFits(x, Ifd1, at, items);
    SeenNext(items, TAG_THUMBNAIL, k);
    SeenNext(items, TAG_THUMBNAIL_LENGTH, k);
    NotYet(items, TAG_THUMBNAIL_LENGTH, k);
    StepPointer(Ifd1After(v, items, at, k, to, thumb), Ifd1, x, at + 2, |items|, k, [], TAG_THUMBNAIL, to);
    BaseSkips(v, Ifd1, items, at + 2, k);
  }

  lemma {:induction false} ThumbnailRead(st: State, d: bytes, to: nat, thumb: bytes)
    requires LiesAt(d, to, thumb) && thumb != []
    ensures LoadThumbnail(st, d, to, |thumb|) == st.(thumb := thumb)
  {
    LiesAtSlice(d, to, thumb);
  }

  lemma {:induction false} EarlierSeen(items: seq<Item>, a: int, b: int, k: nat)
    requires StrictlySorted(items) && Seen(items, a, |items|) && k < |items| && items[k].slot.tag == b && a < b
    ensures Seen(items, a, k)
  {
    var j :| 0 <= j < |items| && items[j].slot.tag == a;
    assert j < k;
  }

  lemma {:induction false} BaseThumb(v: State, ifd: Ifd, items: seq<Item>, at: nat, k: nat, thumb: bytes)
    requires PointersPositive(items) && k <= |items|
    ensures Base(v, ifd, items, at, k).(thumb := thumb) == Base(v.(thumb := thumb), ifd, items, at, k)
  {
    hide PointersPositive, Kept, NoteAt;
  }

  lemma {:induction false} LengthStep(v: State, x: Input, at: nat, items: seq<Item>, k: nat, to: nat, thumb: bytes)
    requires ValidInput(x) && Ifd1Placed(x, at, items, to, thumb) && k < |items|
    requires items[k].slot.tag == TAG_THUMBNAIL_LENGTH
    ensures at + 2 + 12 * |items| <= |x.d|
    ensures StepRecord(Ifd1After(v, items, at, k, to, thumb), Ifd1, x, at + 2, |items|, k, [])
      == Ifd1After(v, items, at, k + 1, to, thumb)
  {
    hide Base, StepRecord, Seen, ValidInput, PointersPositive, DirPlaced, PointerPlaced, LiesAt, StrictlySorted;
    hide LoadThumbnail;
    assert Ifd1Pointer(x, at, items, k, to, |thumb|);
    DirFits(x, Ifd1, at, items);
    SeenNext(items, TAG_THUMBNAIL, k);
    SeenNext(items, TAG_THUMBNAIL_LENGTH, k);
    NotYet(items, TAG_THUMBNAIL_LENGTH, k);
    SeenAll(items, TAG_THUMBNAIL_LENGTH, k);
    EarlierSeen(items, TAG_THUMBNAIL, TAG_THUMBNAIL_LENGTH, k);
    StepPointer(Ifd1After(v, items, at, k, to, thumb), Ifd1, x, at + 2, |items|, k, [], TAG_THUMBNAIL_LENGTH, |thumb|);
    ThumbnailRead(Base(v, Ifd1, items, at + 2, k), x.d, to, thumb);
    BaseThumb(v, Ifd1, items, at + 2, k, thumb);
    BaseSkips(v.(thumb := thumb), Ifd1, items, at + 2, k);
  }

  ghost function Ifd1Result(st: State, items: seq<Item>, at: nat, to: nat, thumb: bytes): State
    requires PointersPositive(items)
  {
    Ifd1After(Visited(st, Ifd1, at, |items|, []), items, at, |items|, to, thumb).st
  }

  lemma {:induction false} Ifd1Start(v: State, items: seq<Item>, at: nat, to: nat, thumb: bytes)
    requires PointersPositive(items) && v.contents.ifd1 == []
    ensures Ifd1After(v, items, at, 0, to, thumb) == Loop(v, 0, 0, false)
  {
    hide PointersPositive;
    BaseStart(v, Ifd1, items, at + 2);
  }

  /** Loading IFD 1 and the thumbnail. */
  lemma {:induction false} LoadIfd1(st: State, x: Input, at: nat, items: seq<Item>, to: nat, thumb: bytes)
    requires ValidInput(x) && Ifd1Placed(x, at, items, to, thumb) && st.contents.ifd1 == []
    ensures LoadContent(st, Ifd1, x, at, []) == Ifd1Result(st, items, at, to, thumb)
  {
    hide Ifd1After, StepRecord, LoadContent, DirPlaced, ValidInput, Seen, PointerPlaced, PointersPositive, Special;
    hide LiesAt;
    var n := |items|;
    var v := Visited(st, Ifd1, at, n, []);
    var ls := seq(n + 1, k requires 0 <= k < n + 1 => Ifd1After(v, items, at, k, to, thumb));
    Ifd1Start(v, items, at, to, thumb);
    DirFits(x, Ifd1, at, items);
    forall j | 0 <= j < n ensures StepRecord(ls[j], Ifd1, x, at + 2, n, j, []) == ls[j + 1] && !ls[j].stop {
      NeverStops(v, items, at, j, to, thumb);
      if !Special(items[j].slot.tag) {
        Ifd1EntryStep(v, x, at, items, j, to, thumb);
      } else {
        assert Ifd1Pointer(x, at, items, j, to, |thumb|);
        if items[j].slot.tag == TAG_THUMBNAIL {
          ThumbnailStep(v, x, at, items, j, to, thumb);
        } else {
          LengthStep(v, x, at, items, j, to, thumb);
        }
      }
    }
    LoadChain(st, Ifd1, x, at, [], items, ls);
  }

  lemma {:induction false} NeverStops(v: State, items: seq<Item>, at: nat, k: nat, to: nat, thumb: bytes)
    requires PointersPositive(items) && k <= |items|
    ensures !Ifd1After(v, items, at, k, to, thumb).stop
  {
    hide Base, Seen, PointersPositive;
  }
}
