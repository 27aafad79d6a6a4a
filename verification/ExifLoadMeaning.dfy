/** What a load of arbitrary bytes can and cannot do. */
module ExifLoadMeaning {
  import opened Bytes
  import opened ExifTypes
  import opened ExifLoad
  import opened ExifCost
  import TagTable

  predicate Top(i: Ifd) { i.Ifd0? || i.Ifd1? }

  // ---- What a directory contributes ----

  /** A record that stores an entry when it is met: well-formed, not special, and known or wanted all the same. */
  predicate Storable(x: Input, ifd: Ifd, pos: nat)
    requires ValidInput(x) && pos + 12 <= |x.d|
  {
    var tag := GetShort(x.d, pos, x.order);
    && !Special(tag)
    && LoadEntry(x, pos).Some?
    && (TagTable.Named(x.table, tag, ifd)
        || !(x.ignoreUnknown || (x.d[pos] == 0 && x.d[pos + 1] == 0 && x.d[pos + 2] == 0 && x.d[pos + 3] == 0)))
  }

  /** The entries of the first `k` records: each storable one, unless its tag has come before. */
  function Gather(x: Input, ifd: Ifd, at: nat, k: nat): seq<Entry>
    requires ValidInput(x) && at + 12 * k <= |x.d|
  {
    if k == 0 then []
    else
      var es := Gather(x, ifd, at, k - 1);
      if Storable(x, ifd, at + 12 * (k - 1)) then AddEntry(es, LoadEntry(x, at + 12 * (k - 1)).value.e) else es
  }

  /** One step of gathering is one ordinary record. */
  lemma {:induction false} GatherStep(st: State, ifd: Ifd, x: Input, at: nat, k: nat)
    requires ValidInput(x) && at + 12 * k + 12 <= |x.d| && st.contents.Of(ifd) == Gather(x, ifd, at, k)
    requires !Special(GetShort(x.d, at + 12 * k, x.order))
    ensures var r := Ordinary(st, ifd, x, at + 12 * k);
      && r.contents.Of(ifd) == Gather(x, ifd, at, k + 1)
      && (forall j :: j != ifd ==> r.contents.Of(j) == st.contents.Of(j))
      && r.used == st.used && r.thumb == st.thumb && r.visits == st.visits
  {
    hide LoadEntry, AddEntry, GetShort, TagTable.Named, TagTable.ValidTable;
  }

  lemma {:induction false} GatherSkip(x: Input, ifd: Ifd, at: nat, k: nat)
    requires ValidInput(x) && at + 12 * k + 12 <= |x.d| && Special(GetShort(x.d, at + 12 * k, x.order))
    ensures Gather(x, ifd, at, k + 1) == Gather(x, ifd, at, k)
  {
    hide LoadEntry, AddEntry, GetShort, TagTable.Named, TagTable.ValidTable;
  }

  // ---- The invariant of a load ----

  predicate Visited(st: State, i: Ifd)
  {
    exists k :: 0 <= k < |st.visits| && st.visits[k].ifd == i
  }

  ghost predicate Gathered(x: Input, v: Visit, es: seq<Entry>, m: nat)
    requires ValidInput(x)
  {
    m <= v.n && v.at + 2 + 12 * v.n <= |x.d| && es == Gather(x, v.ifd, v.at + 2, m)
  }

  /** The directory has as many records as its count field says, as far as the data reach. */
  predicate Counted(x: Input, v: Visit)
  {
    v.at + 2 <= |x.d| && v.n == RecordCount(x, v.at)
  }

  /**
   A directory that was walked: as many records as it says, cheap enough, and its entries gathered from its own records.
   */
  ghost predicate VisitOk(x: Input, v: Visit, st: State)
    requires ValidInput(x)
  {
    && Counted(x, v)
    && PathCost(v.path) <= MAX_COST
    && (Top(v.ifd) || st.used.Of(v.ifd))
    && exists m :: Gathered(x, v, st.contents.Of(v.ifd), m)
  }

  /** Record `k` of the walked directory `u` is the pointer to a directory `ifd` at `at`. */
  predicate PointsTo(x: Input, u: Visit, k: nat, ifd: Ifd, at: nat)
  {
    && k < u.n && u.at + 2 + 12 * u.n <= |x.d|
    && Target(GetShort(x.d, u.at + 2 + 12 * k, x.order)) == Some(ifd)
    && GetLong(x.d, u.at + 2 + 12 * k + 8, x.order) == at
  }

  /** The directory `ifd` at `at` was entered from a record of `u`. */
  ghost predicate EnteredFrom(x: Input, u: Visit, ifd: Ifd, at: nat, path: seq<nat>)
  {
    path == u.path + [u.n] && exists k :: PointsTo(x, u, k, ifd, at)
  }

  /** IFD 0 lies where the header says, and IFD 1 where the link behind IFD 0 says. */
  predicate TopAt(x: Input, ifd: Ifd, at: nat)
  {
    && |x.d| >= 8
    && var first := GetLong(x.d, 4, x.order);
       if ifd.Ifd0? then at == first
       else
         && first + 2 <= |x.d|
         && var link := first + 2 + 12 * GetShort(x.d, first, x.order);
            link + 4 <= |x.d| && at == GetLong(x.d, link, x.order)
  }

  /** A directory is met at the top, or entered from one of the first `n` that were walked. */
  ghost predicate Rooted(x: Input, visits: seq<Visit>, n: nat, ifd: Ifd, at: nat, path: seq<nat>)
    requires n <= |visits|
  {
    if Top(ifd) then path == [] && TopAt(x, ifd, at)
    else exists b :: 0 <= b < n && EnteredFrom(x, visits[b], ifd, at, path)
  }

  ghost predicate RootedAt(x: Input, visits: seq<Visit>, a: nat)
    requires a < |visits|
  {
    Rooted(x, visits, a, visits[a].ifd, visits[a].at, visits[a].path)
  }

  ghost predicate Sound(x: Input, st: State)
    requires ValidInput(x)
  {
    && (forall a :: 0 <= a < |st.visits| ==> RootedAt(x, st.visits, a))
    && (forall a, b :: 0 <= a < b < |st.visits| ==> st.visits[a].ifd != st.visits[b].ifd)
    && (forall a :: 0 <= a < |st.visits| ==> VisitOk(x, st.visits[a], st))
    && (forall i :: !Visited(st, i) ==> st.contents.Of(i) == [])
    && (st.thumb == [] || exists o :: LiesAt(x.d, o, st.thumb))
  }

  /** What the walk of a directory `ifd` leaves alone. */
  ghost predicate Frame(st: State, r: State, ifd: Ifd)
  {
    && |st.visits| <= |r.visits| && r.visits[..|st.visits|] == st.visits
    && (forall i :: st.used.Of(i) ==> r.used.Of(i))
    && (forall j :: j != ifd && (Top(j) || st.used.Of(j)) ==> r.contents.Of(j) == st.contents.Of(j))
    && (forall a :: |st.visits| <= a < |r.visits| ==> !Top(r.visits[a].ifd) && !st.used.Of(r.visits[a].ifd))
  }

  lemma {:induction false} FrameSelf(st: State, ifd: Ifd)
    ensures Frame(st, st, ifd)
  {
  }

  lemma {:induction false} FrameTrans(a: State, b: State, c: State, ifd: Ifd)
    requires Frame(a, b, ifd) && Frame(b, c, ifd)
    ensures Frame(a, c, ifd)
  {
    assert c.visits[..|b.visits|][..|a.visits|] == c.visits[..|a.visits|];
    forall k | |a.visits| <= k < |c.visits| ensures !Top(c.visits[k].ifd) && !a.used.Of(c.visits[k].ifd) {
      if k < |b.visits| {
        assert c.visits[k] == c.visits[..|b.visits|][k] == b.visits[k];
      }
    }
  }

  /** A change of one visited directory's entries within its own gathering. */
  lemma {:induction false} SoundGather(x: Input, st: State, r: State, v: Visit, m: nat)
    requires ValidInput(x) && Sound(x, st) && v in st.visits && Gathered(x, v, r.contents.Of(v.ifd), m)
    requires forall j :: j != v.ifd ==> r.contents.Of(j) == st.contents.Of(j)
    requires r.used == st.used && r.thumb == st.thumb && r.visits == st.visits
    ensures Sound(x, r)
  {
    hide Gathered, TagTable.ValidTable, PathCost;
    forall a | 0 <= a < |r.visits| ensures VisitOk(x, r.visits[a], r) {
      assert VisitOk(x, st.visits[a], st);
      if r.visits[a].ifd != v.ifd {
        var k :| Gathered(x, st.visits[a], st.contents.Of(st.visits[a].ifd), k);
        assert Gathered(x, r.visits[a], r.contents.Of(r.visits[a].ifd), k);
      }
    }
    assert forall i :: Visited(r, i) == Visited(st, i);
    assert Visited(st, v.ifd);
  }

  /** What loading a directory leaves alone: as for its walk, but the directory itself is visited. */
  ghost predicate ContentFrame(st: State, r: State, ifd: Ifd)
  {
    && |st.visits| <= |r.visits| && r.visits[..|st.visits|] == st.visits
    && (forall i :: st.used.Of(i) ==> r.used.Of(i))
    && (forall j :: j != ifd && (Top(j) || st.used.Of(j)) ==> r.contents.Of(j) == st.contents.Of(j))
    && (forall a :: |st.visits| <= a < |r.visits| ==>
      r.visits[a].ifd == ifd || (!Top(r.visits[a].ifd) && !st.used.Of(r.visits[a].ifd)))
  }

  lemma {:induction false} SoundThumb(x: Input, st: State, o: nat, s: nat)
    requires ValidInput(x) && Sound(x, st)
    ensures Sound(x, LoadThumbnail(st, x.d, o, s))
    ensures LoadThumbnail(st, x.d, o, s) == st.(thumb := LoadThumbnail(st, x.d, o, s).thumb)
  {
    hide Gathered, TagTable.ValidTable, PathCost;
    var r := LoadThumbnail(st, x.d, o, s);
    forall a | 0 <= a < |r.visits| ensures VisitOk(x, r.visits[a], r) {
      assert VisitOk(x, st.visits[a], st);
    }
    assert forall i :: Visited(r, i) == Visited(st, i);
    if r != st {
      LiesAtSlice(x.d, o, r.thumb);
      assert LiesAt(x.d, o, r.thumb);
    }
  }

  lemma {:induction false} SoundMark(x: Input, st: State, i: Ifd)
    requires ValidInput(x) && Sound(x, st)
    ensures Sound(x, st.(used := st.used.Mark(i)))
  {
    hide Gathered, TagTable.ValidTable, PathCost;
    var r := st.(used := st.used.Mark(i));
    forall a | 0 <= a < |r.visits| ensures VisitOk(x, r.visits[a], r) {
      assert VisitOk(x, st.visits[a], st);
    }
    assert forall j :: Visited(r, j) == Visited(st, j);
  }

  lemma {:induction false} UnusedIsUnvisited(x: Input, st: State, i: Ifd)
    requires ValidInput(x) && Sound(x, st) && !Top(i) && !st.used.Of(i)
    ensures !Visited(st, i)
  {
    hide Gathered, TagTable.ValidTable, PathCost;
    forall k | 0 <= k < |st.visits| ensures st.visits[k].ifd != i {
      assert VisitOk(x, st.visits[k], st);
    }
  }

  /** Entering a directory. */
  lemma {:induction false} SoundVisit(x: Input, st: State, v: Visit)
    requires ValidInput(x) && Sound(x, st) && !Visited(st, v.ifd) && (Top(v.ifd) || st.used.Of(v.ifd))
    requires Counted(x, v) && PathCost(v.path) <= MAX_COST
    requires Rooted(x, st.visits, |st.visits|, v.ifd, v.at, v.path)
    ensures Sound(x, st.(visits := st.visits + [v]))
  {
    hide TagTable.ValidTable, PathCost, EnteredFrom;
    var r := st.(visits := st.visits + [v]);
    forall a | 0 <= a < |r.visits| ensures RootedAt(x, r.visits, a) {
      if a < |st.visits| {
        assert RootedAt(x, st.visits, a);
        SameRoot(x, st.visits, r.visits, a, r.visits[a]);
      } else {
        SameRoot(x, st.visits, r.visits, a, v);
      }
    }
    assert Gathered(x, v, r.contents.Of(v.ifd), 0);
    forall a | 0 <= a < |r.visits| ensures VisitOk(x, r.visits[a], r) {
      if a < |st.visits| {
        assert VisitOk(x, st.visits[a], st);
      }
    }
    forall i | Visited(st, i) ensures Visited(r, i) {
      var k :| 0 <= k < |st.visits| && st.visits[k].ifd == i;
      assert r.visits[k].ifd == i;
    }
  }

  lemma {:induction false} SameRoot(x: Input, a: seq<Visit>, b: seq<Visit>, n: nat, v: Visit)
    requires n <= |a| <= |b| && b[..|a|] == a && Rooted(x, a, n, v.ifd, v.at, v.path)
    ensures Rooted(x, b, n, v.ifd, v.at, v.path)
  {
    hide EnteredFrom;
    if !Top(v.ifd) {
      var k :| 0 <= k < n && EnteredFrom(x, a[k], v.ifd, v.at, v.path);
      assert b[..|a|][k] == b[k];
    }
  }

  lemma {:induction false} ThumbFrame(a: State, b: State, ifd: Ifd)
    requires b == a.(thumb := b.thumb)
    ensures Frame(a, b, ifd)
  {
  }

  lemma {:induction false} EnterFrame(a: State, r: State, ifd: Ifd, i: Ifd)
    requires ContentFrame(a.(used := a.used.Mark(i)), r, i) && !a.used.Of(i) && !Top(i) && i != ifd
    ensures Frame(a, r, ifd) && (Top(ifd) || a.used.Of(ifd) ==> r.contents.Of(ifd) == a.contents.Of(ifd))
  {
  }

  lemma {:induction false} SpecialSound(l: Loop, ifd: Ifd, x: Input, tag: int, o: nat, v: Visit, k: nat)
    requires ValidInput(x) && Sound(x, l.st) && (Top(ifd) || l.st.used.Of(ifd))
    requires v in l.st.visits && (Target(tag).Some? ==> PointsTo(x, v, k, Target(tag).value, o))
    ensures var r := StepSpecial(l, ifd, x, tag, o, v.n, v.path);
      Sound(x, r.st) && Frame(l.st, r.st, ifd) && r.st.contents.Of(ifd) == l.st.contents.Of(ifd)
    decreases l.st.used.Unset(), 0, 0
  {
    hide Sound, LoadContent, TagTable.ValidTable, PathCost, Frame, ContentFrame, LoadThumbnail, PointsTo;
    FrameSelf(l.st, ifd);
    match Target(tag)
    case None =>
      var to := if tag == TAG_THUMBNAIL then o else l.to;
      var tl := if tag == TAG_THUMBNAIL then l.tl else o;
      SoundThumb(x, l.st, to, tl);
      ThumbFrame(l.st, LoadThumbnail(l.st, x.d, to, tl), ifd);
    case Some(i) =>
      if MayEnter(l.st, ifd, i) {
        var st := l.st.(used := l.st.used.Mark(i));
        SoundMark(x, l.st, i);
        UnusedIsUnvisited(x, l.st, i);
        assert !Visited(st, i);
        assert EnteredFrom(x, v, i, o, v.path + [v.n]);
        assert Rooted(x, st.visits, |st.visits|, i, o, v.path + [v.n]);
        ContentSound(st, i, x, o, v.path + [v.n]);
        EnterFrame(l.st, LoadContent(st, i, x, o, v.path + [v.n]), ifd, i);
      }
  }

  lemma {:induction false} StepSound(l: Loop, ifd: Ifd, x: Input, v: Visit, k: nat)
    requires ValidInput(x) && Sound(x, l.st) && (Top(ifd) || l.st.used.Of(ifd))
    requires v in l.st.visits && v.ifd == ifd && k < v.n && v.at + 2 + 12 * v.n <= |x.d|
    requires l.st.contents.Of(ifd) == Gather(x, ifd, v.at + 2, k)
    ensures var r := StepRecord(l, ifd, x, v.at + 2, v.n, k, v.path);
      && Sound(x, r.st) && Frame(l.st, r.st, ifd) && r.st.contents.Of(ifd) == Gather(x, ifd, v.at + 2, k + 1)
    decreases l.st.used.Unset(), 1, 0
  {
    hide Sound, StepSpecial, TagTable.ValidTable, PathCost, Gather, GetShort, GetLong, Ordinary, Special;
    var pos := v.at + 2 + 12 * k;
    var tag := GetShort(x.d, pos, x.order);
    if !Special(tag) {
      GatherStep(l.st, ifd, x, v.at + 2, k);
      SoundGather(x, l.st, Ordinary(l.st, ifd, x, pos), v, k + 1);
    } else {
      GatherSkip(x, ifd, v.at + 2, k);
      var o := GetLong(x.d, pos + 8, x.order);
      FrameSelf(l.st, ifd);
      if o < |x.d| {
        SpecialSound(l, ifd, x, tag, o, v, k);
      }
    }
  }

  lemma {:induction false} StillVisited(a: State, b: State, ifd: Ifd, v: Visit)
    requires Frame(a, b, ifd) && v in a.visits
    ensures v in b.visits
  {
    var k :| 0 <= k < |a.visits| && a.visits[k] == v;
    assert b.visits[..|a.visits|][k] == v;
  }

  lemma {:induction false} RecordsSound(l: Loop, ifd: Ifd, x: Input, v: Visit, k: nat)
    requires ValidInput(x) && Sound(x, l.st) && (Top(ifd) || l.st.used.Of(ifd))
    requires v in l.st.visits && v.ifd == ifd && k <= v.n && v.at + 2 + 12 * v.n <= |x.d|
    requires l.st.contents.Of(ifd) == Gather(x, ifd, v.at + 2, k)
    ensures var r := LoadRecords(l, ifd, x, v.at + 2, v.n, k, v.path); Sound(x, r) && Frame(l.st, r, ifd)
    decreases l.st.used.Unset(), 2, v.n - k
  {
    hide Sound, StepRecord, TagTable.ValidTable, PathCost, Gather, Frame;
    FrameSelf(l.st, ifd);
    if k < v.n && !l.stop {
      StepSound(l, ifd, x, v, k);
      var l' := StepRecord(l, ifd, x, v.at + 2, v.n, k, v.path);
      StillVisited(l.st, l'.st, ifd, v);
      assert Top(ifd) || l'.st.used.Of(ifd) by { FrameUsed(l.st, l'.st, ifd); }
      RecordsSound(l', ifd, x, v, k + 1);
      FrameTrans(l.st, l'.st, LoadRecords(l', ifd, x, v.at + 2, v.n, k + 1, v.path), ifd);
    }
  }

  lemma {:induction false} FrameUsed(a: State, b: State, ifd: Ifd)
    requires Frame(a, b, ifd)
    ensures forall i :: a.used.Of(i) ==> b.used.Of(i)
  {
  }

  lemma {:induction false} VisitFrame(st: State, v: Visit, r: State)
    requires Frame(st.(visits := st.visits + [v]), r, v.ifd)
    ensures ContentFrame(st, r, v.ifd)
  {
    var s := st.(visits := st.visits + [v]);
    assert r.visits[..|s.visits|][..|st.visits|] == r.visits[..|st.visits|];
    assert s.visits[..|st.visits|] == st.visits;
    forall a | |st.visits| <= a < |r.visits|
      ensures r.visits[a].ifd == v.ifd || (!Top(r.visits[a].ifd) && !st.used.Of(r.visits[a].ifd)) {
      if a == |st.visits| {
        assert r.visits[a] == r.visits[..|s.visits|][a] == v;
      }
    }
  }

  /** Loading a directory that has not been visited keeps the invariant. */
  lemma {:induction false} ContentSound(st: State, ifd: Ifd, x: Input, at: nat, path: seq<nat>)
    requires ValidInput(x) && Sound(x, st) && !Visited(st, ifd) && (Top(ifd) || st.used.Of(ifd))
    requires Rooted(x, st.visits, |st.visits|, ifd, at, path)
    ensures var r := LoadContent(st, ifd, x, at, path); Sound(x, r) && ContentFrame(st, r, ifd)
    decreases st.used.Unset(), 3, 0
  {
    hide Sound, LoadRecords, TagTable.ValidTable, PathCost, Frame, RecordCount;
    if !(PathCost(path) > MAX_COST || CheckOverflow(at, |x.d|, 2)) {
      var n := RecordCount(x, at);
      var v := Visit(ifd, at, n, path);
      var s := st.(visits := st.visits + [v]);
      SoundVisit(x, st, v);
      assert v in s.visits by { assert s.visits[|st.visits|] == v; }
      EmptyAtFirst(x, st, ifd);
      RecordsSound(Loop(s, 0, 0, false), ifd, x, v, 0);
      VisitFrame(st, v, LoadRecords(Loop(s, 0, 0, false), ifd, x, at + 2, n, 0, path));
    }
  }

  lemma {:induction false} EmptyAtFirst(x: Input, st: State, ifd: Ifd)
    requires ValidInput(x) && Sound(x, st) && !Visited(st, ifd)
    ensures st.contents.Of(ifd) == []
  {
    hide VisitOk, TagTable.ValidTable;
  }

  // ---- Whole loads ----

  lemma {:induction false} FreshIsSound(x: Input)
    requires ValidInput(x)
    ensures Sound(x, FRESH)
  {
  }

  lemma {:induction false} BlockSound(x: Input)
    requires ValidInput(x) && |x.d| >= 8
    ensures Sound(x, LoadBlock(FRESH, x).st)
  {
    hide Sound, LoadContent, TagTable.ValidTable, GetShort, GetLong;
    FreshIsSound(x);
    var offset := GetLong(x.d, 4, x.order);
    if offset + 2 <= |x.d| {
      ContentSound(FRESH, Ifd0, x, offset, []);
      var st := LoadContent(FRESH, Ifd0, x, offset, []);
      var n := GetShort(x.d, offset, x.order);
      if offset + 2 + 12 * n + 4 <= |x.d| {
        assert !Visited(st, Ifd1);
        ContentSound(st, Ifd1, x, GetLong(x.d, offset + 2 + 12 * n, x.order), []);
      }
    }
  }

  /** What a load of `b` looks at, once the byte order is known. */
  function LookedAt(b: bytes, order: ByteOrder, table: seq<TagTable.Row>, ignoreUnknown: bool): Input
    requires FindExif(b).Some?
  {
    Input(Capped(FindExif(b).value), order, table, ignoreUnknown)
  }

  /**
   Whatever the bytes, a load into a fresh object leaves it fresh if there is no EXIF block, and else keeps the
   invariant.
   */
  lemma {:induction false} LoadIsSound(order: ByteOrder, b: bytes, table: seq<TagTable.Row>, ignoreUnknown: bool)
    requires TagTable.ValidTable(table)
    ensures var r := LoadFile(order, FRESH, b, table, ignoreUnknown);
      if FindExif(b).None? then r == Result(order, FRESH, false)
      else
        && ValidInput(LookedAt(b, r.order, table, ignoreUnknown))
        && Sound(LookedAt(b, r.order, table, ignoreUnknown), r.st)
  {
    hide Sound, LoadBlock, TagTable.ValidTable, FindExif;
    match FindExif(b)
    case None =>
    case Some(f) =>
      var d := Capped(f);
      FreshIsSound(LookedAt(b, order, table, ignoreUnknown));
      match DeclaredOrder(d)
      case None =>
      case Some(o) =>
        var x := Input(d, o, table, ignoreUnknown);
        BlockSound(x);
        BlockOrder(x);
  }

  lemma {:induction false} BlockOrder(x: Input)
    requires ValidInput(x) && |x.d| >= 8
    ensures LoadBlock(FRESH, x).order == x.order
  {
    hide LoadContent, TagTable.ValidTable, GetShort, GetLong;
  }

  function TotalRecords(visits: seq<Visit>): nat
  {
    if visits == [] then 0 else visits[0].n + TotalRecords(visits[1..])
  }

  lemma {:induction false} TotalAtMost(visits: seq<Visit>, most: nat)
    requires forall k :: 0 <= k < |visits| ==> visits[k].n <= most
    ensures TotalRecords(visits) <= most * |visits|
    decreases |visits|
  {
    if visits != [] {
      TotalAtMost(visits[1..], most);
      assert most * |visits| == most + most * (|visits| - 1);
    }
  }

  /** Each directory is walked at most once, and at most 27300 records are looked at in all. */
  lemma {:induction false} WorkBound(x: Input, st: State)
    requires ValidInput(x) && Sound(x, st)
    ensures |st.visits| <= 5 && TotalRecords(st.visits) <= 27300
    ensures forall a, b :: 0 <= a < b < |st.visits| ==> st.visits[a].ifd != st.visits[b].ifd
  {
    hide Gathered, TagTable.ValidTable, PathCost;
    FiveAtMost(st.visits);
    forall k | 0 <= k < |st.visits| ensures st.visits[k].n <= 5460 {
      assert VisitOk(x, st.visits[k], st);
    }
    TotalAtMost(st.visits, 5460);
  }

  lemma {:induction false} Pigeons(a: Ifd, b: Ifd, c: Ifd, d: Ifd, e: Ifd, f: Ifd)
    ensures a == b || a == c || a == d || a == e || a == f || b == c || b == d || b == e || b == f
         || c == d || c == e || c == f || d == e || d == f || e == f
  {
  }

  lemma {:induction false} FiveAtMost(visits: seq<Visit>)
    requires forall a, b :: 0 <= a < b < |visits| ==> visits[a].ifd != visits[b].ifd
    ensures |visits| <= 5
  {
    if |visits| > 5 {
      Pigeons(visits[0].ifd, visits[1].ifd, visits[2].ifd, visits[3].ifd, visits[4].ifd, visits[5].ifd);
    }
  }

  // ---- The guard at work ----

  /**
   A chain of walked directories: the first is met at the top, and each other is entered from a record of the one
   before.
   */
  ghost predicate Chain(x: Input, visits: seq<Visit>, js: seq<nat>)
  {
    && js != [] && (forall a :: 0 <= a < |js| ==> js[a] < |visits| && Counted(x, visits[js[a]]))
    && Top(visits[js[0]].ifd) && TopAt(x, visits[js[0]].ifd, visits[js[0]].at)
    && forall a :: 0 < a < |js| ==> Linked(x, visits[js[a - 1]], visits[js[a]])
  }

  ghost predicate Linked(x: Input, u: Visit, v: Visit)
  {
    !Top(v.ifd) && EnteredFrom(x, u, v.ifd, v.at, v.path)
  }

  /** The numbers of records of the first `n` directories of a chain. */
  function Counts(visits: seq<Visit>, js: seq<nat>, n: nat): (c: seq<nat>)
    requires n <= |js| && forall a :: 0 <= a < |js| ==> js[a] < |visits|
    ensures |c| == n
  {
    seq(n, a requires 0 <= a < n => visits[js[a]].n)
  }

  /** The path of a directory holds the numbers of records of those above it. */
  lemma {:induction false} PathIsCounts(x: Input, st: State, js: seq<nat>, n: nat)
    requires ValidInput(x) && Sound(x, st) && Chain(x, st.visits, js) && n < |js|
    ensures st.visits[js[n]].path == Counts(st.visits, js, n)
  {
    hide VisitOk, TagTable.ValidTable, PointsTo;
    if n == 0 {
      assert RootedAt(x, st.visits, js[0]);
    } else {
      PathIsCounts(x, st, js, n - 1);
      assert Linked(x, st.visits[js[n - 1]], st.visits[js[n]]);
      assert Counts(st.visits, js, n) == Counts(st.visits, js, n - 1) + [st.visits[js[n - 1]].n];
    }
  }

  /** Every directory that is walked stands at the end of such a chain. */
  lemma {:induction false} Ancestry(x: Input, st: State, k: nat) returns (js: seq<nat>)
    requires ValidInput(x) && Sound(x, st) && k < |st.visits|
    ensures Chain(x, st.visits, js) && js[|js| - 1] == k
  {
    hide TagTable.ValidTable, EnteredFrom, TopAt, RecordCount, Gathered, PathCost;
    assert RootedAt(x, st.visits, k);
    var v := st.visits[k];
    assert VisitOk(x, v, st);
    if Top(v.ifd) {
      js := [k];
    } else {
      var b: nat :| b < k && EnteredFrom(x, st.visits[b], v.ifd, v.at, v.path);
      var up := Ancestry(x, st, b);
      js := up + [k];
      forall a | 0 < a < |js| ensures Linked(x, st.visits[js[a - 1]], st.visits[js[a]]) {
        if a < |up| {
          assert Linked(x, st.visits[up[a - 1]], st.visits[up[a]]);
        }
      }
    }
  }

  /** Along any such chain the numbers of records above the last directory multiply to at most 1.1^170. */
  lemma {:induction false} GuardBound(x: Input, st: State, js: seq<nat>)
    requires ValidInput(x) && Sound(x, st) && Chain(x, st.visits, js)
    ensures Product(Counts(st.visits, js, |js| - 1)) as real <= Pow(170)
  {
    hide Gathered, TagTable.ValidTable, PathCost, Product, Pow, EnteredFrom;
    PathIsCounts(x, st, js, |js| - 1);
    var v := st.visits[js[|js| - 1]];
    assert VisitOk(x, v, st);
    CostBoundsProduct(v.path);
    PowMonotone(PathCost(v.path), 170);
  }

  // ---- What the entries are ----

  /** A stored entry is what its record says, with a value that is a piece of the input. */
  lemma {:induction false} EntryMeaning(x: Input, pos: nat)
    requires pos + 12 <= |x.d| && LoadEntry(x, pos).Some?
    ensures var l := LoadEntry(x, pos).value;
      && l.e.tag == GetShort(x.d, pos, x.order) && l.e.format == GetShort(x.d, pos + 2, x.order)
      && l.e.components == GetLong(x.d, pos + 4, x.order)
      && |l.e.data| == FormatSize(l.e.format) * l.e.components > 0
      && l.at == (if |l.e.data| > 4 then GetLong(x.d, pos + 8, x.order) else pos + 8)
      && LiesAt(x.d, l.at, l.e.data)
  {
    hide GetShort, GetLong;
    var l := LoadEntry(x, pos).value;
    ValueBytesIsProduct(l.e.format, l.e.components);
    LiesAtSlice(x.d, l.at, l.e.data);
  }

  /** Entry `e` is that of record `j`, the first storable one with its tag. */
  predicate FirstWith(x: Input, ifd: Ifd, at: nat, j: nat, e: Entry)
    requires ValidInput(x) && at + 12 * j + 12 <= |x.d|
  {
    && Storable(x, ifd, at + 12 * j) && LoadEntry(x, at + 12 * j).value.e == e
    && forall i :: 0 <= i < j && Storable(x, ifd, at + 12 * i) ==> LoadEntry(x, at + 12 * i).value.e.tag != e.tag
  }

  ghost predicate FromFirst(x: Input, ifd: Ifd, at: nat, k: nat, e: Entry)
    requires ValidInput(x) && at + 12 * k <= |x.d|
  {
    exists j :: 0 <= j < k && FirstWith(x, ifd, at, j, e)
  }

  /**
   Each storable record's tag is there, each entry is that of the first storable record with its tag, and no tag is
   there twice.
   */
  lemma {:induction false} GatherMeaning(x: Input, ifd: Ifd, at: nat, k: nat)
    requires ValidInput(x) && at + 12 * k <= |x.d|
    ensures var es := Gather(x, ifd, at, k);
      && DistinctTags(es)
      && (forall j :: 0 <= j < k && Storable(x, ifd, at + 12 * j) ==> HasTag(es, LoadEntry(x, at + 12 * j).value.e.tag))
      && (forall i :: 0 <= i < |es| ==> FromFirst(x, ifd, at, k, es[i]) && !Special(es[i].tag))
  {
    hide LoadEntry, Storable, TagTable.ValidTable, Special;
    if k > 0 {
      GatherMeaning(x, ifd, at, k - 1);
      var es := Gather(x, ifd, at, k - 1);
      forall i | 0 <= i < |es| ensures FromFirst(x, ifd, at, k, es[i]) {
        var j :| 0 <= j < k - 1 && FirstWith(x, ifd, at, j, es[i]);
        assert FirstWith(x, ifd, at, j, es[i]);
      }
      if Storable(x, ifd, at + 12 * (k - 1)) {
        StorableTag(x, ifd, at + 12 * (k - 1));
        var e := LoadEntry(x, at + 12 * (k - 1)).value.e;
        if !HasTag(es, e.tag) {
          assert FirstWith(x, ifd, at, k - 1, e);
          forall t ensures HasTag(es + [e], t) <==> HasTag(es, t) || e.tag == t {
            HasTagAppend(es, e, t);
          }
        }
      }
    }
  }

  lemma {:induction false} StorableTag(x: Input, ifd: Ifd, pos: nat)
    requires ValidInput(x) && pos + 12 <= |x.d| && Storable(x, ifd, pos)
    ensures LoadEntry(x, pos).Some? && !Special(LoadEntry(x, pos).value.e.tag)
  {
    hide TagTable.ValidTable, TagTable.Named, GetShort, GetLong, Special;
    EntryMeaning(x, pos);
  }

  // ---- The work of a whole load ----

  /**
   The directory `k` is at the end of a chain of walked directories whose record counts, but its own, multiply to at
   most 1.1^170.
   */
  ghost predicate Cheap(x: Input, visits: seq<Visit>, k: nat)
  {
    exists js :: Chain(x, visits, js) && js[|js| - 1] == k && Product(Counts(visits, js, |js| - 1)) as real <= Pow(170)
  }

  /**
   The work of a load of any bytes into a fresh object: each directory is walked at most once, at most 27300 records are
   looked at in all, and the guard bounds what hangs above any directory that is walked.
   */
  lemma {:induction false} LoadWork(order: ByteOrder, b: bytes, table: seq<TagTable.Row>, ignoreUnknown: bool)
    requires TagTable.ValidTable(table)
    ensures var r := LoadFile(order, FRESH, b, table, ignoreUnknown); var visits := r.st.visits;
      && |visits| <= 5 && TotalRecords(visits) <= 27300
      && (forall i, j :: 0 <= i < j < |visits| ==> visits[i].ifd != visits[j].ifd)
      && (visits != [] ==> FindExif(b).Some?)
      && (forall k :: 0 <= k < |visits| ==> Counted(LookedAt(b, r.order, table, ignoreUnknown), visits[k]))
      && forall k :: 0 <= k < |visits| ==> Cheap(LookedAt(b, r.order, table, ignoreUnknown), visits, k)
  {
    hide LoadFile, Sound, TagTable.ValidTable, FindExif, Product, Pow, Counts, Counted, Linked, TopAt;
    LoadIsSound(order, b, table, ignoreUnknown);
    var r := LoadFile(order, FRESH, b, table, ignoreUnknown);
    if FindExif(b).Some? {
      var x := LookedAt(b, r.order, table, ignoreUnknown);
      WorkBound(x, r.st);
      forall k | 0 <= k < |r.st.visits| ensures Cheap(x, r.st.visits, k) && Counted(x, r.st.visits[k]) {
        var js := Ancestry(x, r.st, k);
        GuardBound(x, r.st, js);
      }
    }
  }

  // ---- Loading into an object that holds something already ----

  /** A sub-directory that is not to be entered any more: it has entries, or has been entered. */
  predicate Held(st: State, j: Ifd)
  {
    (j.ExifIfd? || j.GpsIfd? || j.InteropIfd?) && (st.contents.Of(j) != [] || st.used.Of(j))
  }

  predicate Keeps(a: State, b: State, j: Ifd)
  {
    Held(b, j) && b.contents.Of(j) == a.contents.Of(j)
  }

  lemma {:induction false} EnterKeeps(st: State, i: Ifd, j: Ifd)
    requires Held(st, j) && i != j
    ensures Keeps(st, st.(used := st.used.Mark(i)), j)
  {
  }

  lemma {:induction false} SpecialKeeps(l: Loop, ifd: Ifd, x: Input, tag: int, o: nat, n: nat, path: seq<nat>, j: Ifd)
    requires ValidInput(x) && Held(l.st, j)
    ensures Keeps(l.st, StepSpecial(l, ifd, x, tag, o, n, path).st, j)
    decreases l.st.used.Unset(), 0, 0
  {
    hide LoadContent, TagTable.ValidTable, PathCost;
    if Target(tag).Some? && MayEnter(l.st, ifd, Target(tag).value) {
      var i := Target(tag).value;
      EnterKeeps(l.st, i, j);
      ContentKeeps(l.st.(used := l.st.used.Mark(i)), i, x, o, path + [n], j);
    }
  }

  lemma {:induction false} OrdinaryKeeps(st: State, ifd: Ifd, x: Input, pos: nat, j: Ifd)
    requires ValidInput(x) && pos + 12 <= |x.d| && Held(st, j) && j != ifd
    ensures Keeps(st, Ordinary(st, ifd, x, pos), j)
  {
    hide TagTable.ValidTable, TagTable.NameScan, ExifLoad.LoadEntry, ExifLoad.AddEntry, GetShort;
  }

  lemma {:induction false} RecordsKeep(l: Loop, ifd: Ifd, x: Input, at: nat, n: nat, k: nat, path: seq<nat>, j: Ifd)
    requires ValidInput(x) && k <= n && at + 12 * n <= |x.d| && Held(l.st, j) && j != ifd
    ensures Keeps(l.st, LoadRecords(l, ifd, x, at, n, k, path), j)
    decreases l.st.used.Unset(), 2, n - k
  {
    hide StepSpecial, Ordinary, Special, TagTable.ValidTable, PathCost, GetShort, GetLong;
    if k < n && !l.stop {
      var pos := at + 12 * k;
      if Special(GetShort(x.d, pos, x.order)) {
        var o := GetLong(x.d, pos + 8, x.order);
        if o < |x.d| {
          SpecialKeeps(l, ifd, x, GetShort(x.d, pos, x.order), o, n, path, j);
        }
      } else {
        OrdinaryKeeps(l.st, ifd, x, pos, j);
      }
      RecordsKeep(StepRecord(l, ifd, x, at, n, k, path), ifd, x, at, n, k + 1, path, j);
    }
  }

  lemma {:induction false} ContentKeeps(st: State, ifd: Ifd, x: Input, at: nat, path: seq<nat>, j: Ifd)
    requires ValidInput(x) && Held(st, j) && j != ifd
    ensures Keeps(st, LoadContent(st, ifd, x, at, path), j)
    decreases st.used.Unset(), 3, 0
  {
    hide LoadRecords, TagTable.ValidTable, PathCost;
    if PathCost(path) <= MAX_COST && !CheckOverflow(at, |x.d|, 2) {
      var n := RecordCount(x, at);
      RecordsKeep(Loop(st.(visits := st.visits + [Visit(ifd, at, n, path)]), 0, 0, false), ifd, x, at + 2, n, 0, path,
        j);
    }
  }

  /** Whatever is loaded into whatever object, a sub-directory that had entries before has the same ones afterwards. */
  lemma {:induction false} LoadKeepsHeld(order: ByteOrder, st: State, b: bytes, table: seq<TagTable.Row>,
                                         ignoreUnknown: bool, j: Ifd)
    requires TagTable.ValidTable(table) && Held(st, j)
    ensures Keeps(st, LoadFile(order, st, b, table, ignoreUnknown).st, j)
  {
    hide LoadContent, TagTable.ValidTable, FindExif, DeclaredOrder, GetShort, GetLong;
    if FindExif(b).Some? && DeclaredOrder(Capped(FindExif(b).value)).Some? {
      var d := Capped(FindExif(b).value);
      var x := Input(d, DeclaredOrder(d).value, table, ignoreUnknown);
      var at := GetLong(d, 4, x.order);
      if at + 2 <= |d| {
        ContentKeeps(st, Ifd0, x, at, [], j);
        var n := GetShort(d, at, x.order);
        if at + 2 + 12 * n + 4 <= |d| {
          ContentKeeps(LoadContent(st, Ifd0, x, at, []), Ifd1, x, GetLong(d, at + 2 + 12 * n, x.order), [], j);
        }
      }
    }
  }
}
