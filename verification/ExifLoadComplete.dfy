/** A load of any bytes, exactly: which directories are walked, how far, and what each of them contributes. */
module ExifLoadComplete {
  import opened Bytes
  import opened ExifTypes
  import opened ExifLoad
  import opened ExifLoadMeaning
  import TagTable

  // ---- How far a directory is walked ----

  /** Record `k` ends the walk: special, its field not inside the data, and the directory not at the top. */
  predicate Stops(x: Input, v: Visit, k: nat)
    requires k < v.n && v.at + 2 + 12 * v.n <= |x.d|
  {
    && Special(GetShort(x.d, v.at + 2 + 12 * k, x.order))
    && GetLong(x.d, v.at + 2 + 12 * k + 8, x.order) >= |x.d|
    && PathCost(v.path) > 0
  }

  /** The first record from `k` on that ends the walk, or else the number of records. */
  function WalkEnd(x: Input, v: Visit, k: nat): (m: nat)
    requires k <= v.n && v.at + 2 + 12 * v.n <= |x.d|
    ensures k <= m <= v.n
    decreases v.n - k
  {
    if k == v.n || Stops(x, v, k) then k else WalkEnd(x, v, k + 1)
  }

  // ---- What the walk of a directory has done ----

  /** If record `k` is a pointer into the data to another directory, that directory has been marked as used. */
  predicate Followed(x: Input, used: Used, v: Visit, k: nat)
    requires k < v.n && v.at + 2 + 12 * v.n <= |x.d|
  {
    var t := Target(GetShort(x.d, v.at + 2 + 12 * k, x.order));
    t.Some? && t.value != v.ifd && GetLong(x.d, v.at + 2 + 12 * k + 8, x.order) < |x.d| ==> used.Of(t.value)
  }

  /** The directory holds exactly what its records up to the end of the walk give, and every pointer was followed. */
  ghost predicate Done(x: Input, st: State, v: Visit)
    requires ValidInput(x)
  {
    && Counted(x, v)
    && st.contents.Of(v.ifd) == Gather(x, v.ifd, v.at + 2, WalkEnd(x, v, 0))
    && forall k :: 0 <= k < WalkEnd(x, v, 0) ==> Followed(x, st.used, v, k)
  }

  /** A pointer that was followed to a directory that could not be entered: too costly, or without room for a count. */
  predicate Refused(x: Input, u: Visit, k: nat, i: Ifd, o: nat)
  {
    PointsTo(x, u, k, i, o) && (PathCost(u.path + [u.n]) > 170 || o + 2 > |x.d|)
  }

  ghost predicate RefusedBy(x: Input, u: Visit, i: Ifd)
  {
    exists k, o :: Refused(x, u, k, i, o)
  }

  /** A directory marked as used was walked, or refused. */
  ghost predicate Entered(x: Input, visits: seq<Visit>, i: Ifd)
  {
    || (exists a :: 0 <= a < |visits| && visits[a].ifd == i)
    || (exists b :: 0 <= b < |visits| && RefusedBy(x, visits[b], i))
  }

  /** What happened between `st` and `r`: each new walk is done, and each newly used directory was entered. */
  ghost predicate Progress(x: Input, st: State, r: State)
    requires ValidInput(x)
  {
    && |st.visits| <= |r.visits|
    && (forall a :: |st.visits| <= a < |r.visits| ==> Done(x, r, r.visits[a]))
    && (forall i :: r.used.Of(i) && !st.used.Of(i) ==> Entered(x, r.visits, i))
  }

  lemma {:induction false} ProgressSame(x: Input, st: State, r: State)
    requires ValidInput(x) && r.visits == st.visits && r.used == st.used
    ensures Progress(x, st, r)
  {
    hide Done, TagTable.ValidTable;
  }

  lemma {:induction false} DoneKept(x: Input, st: State, r: State, ifd: Ifd, v: Visit)
    requires ValidInput(x) && Done(x, st, v) && Frame(st, r, ifd) && v.ifd != ifd && (Top(v.ifd) || st.used.Of(v.ifd))
    ensures Done(x, r, v)
  {
    hide Gather, WalkEnd, TagTable.ValidTable, GetShort, GetLong, RecordCount;
    forall k | 0 <= k < WalkEnd(x, v, 0) ensures Followed(x, r.used, v, k) {
      assert Followed(x, st.used, v, k);
    }
  }

  lemma {:induction false} EnteredKept(x: Input, a: seq<Visit>, b: seq<Visit>, i: Ifd)
    requires Entered(x, a, i) && |a| <= |b| && b[..|a|] == a
    ensures Entered(x, b, i)
  {
    hide RefusedBy;
    if k :| 0 <= k < |a| && a[k].ifd == i {
      assert b[..|a|][k] == b[k];
    } else {
      var k :| 0 <= k < |a| && RefusedBy(x, a[k], i);
      assert b[..|a|][k] == b[k];
    }
  }

  /** In a state that keeps the invariant a walked directory is at the top or used, and only walked once. */
  lemma {:induction false} WalkedOnce(x: Input, st: State, a: nat, b: nat)
    requires ValidInput(x) && Sound(x, st) && a < |st.visits| && b < |st.visits| && a != b
    ensures st.visits[a].ifd != st.visits[b].ifd && (Top(st.visits[a].ifd) || st.used.Of(st.visits[a].ifd))
  {
    hide Gathered, TagTable.ValidTable, PathCost;
    assert VisitOk(x, st.visits[a], st);
    if a < b {
      assert st.visits[a].ifd != st.visits[b].ifd;
    } else {
      assert st.visits[b].ifd != st.visits[a].ifd;
    }
  }

  lemma {:induction false} ProgressTrans(x: Input, a: State, b: State, c: State, ifd: Ifd, k: nat)
    requires ValidInput(x) && Sound(x, b) && Frame(a, b, ifd) && Frame(b, c, ifd)
    requires Progress(x, a, b) && Progress(x, b, c) && k < |a.visits| && a.visits[k].ifd == ifd
    ensures Progress(x, a, c)
  {
    hide Done, Sound, TagTable.ValidTable, Entered;
    assert b.visits[..|a.visits|][k] == b.visits[k];
    forall j | |a.visits| <= j < |c.visits| ensures Done(x, c, c.visits[j]) {
      if j < |b.visits| {
        assert c.visits[..|b.visits|][j] == c.visits[j];
        WalkedOnce(x, b, j, k);
        DoneKept(x, b, c, ifd, b.visits[j]);
      }
    }
    forall i | c.used.Of(i) && !a.used.Of(i) ensures Entered(x, c.visits, i) {
      if b.used.Of(i) {
        EnteredKept(x, b.visits, c.visits, i);
      }
    }
  }

  // ---- The walk ----

  lemma {:induction false} SpecialDone(l: Loop, ifd: Ifd, x: Input, tag: int, o: nat, v: Visit, b: nat, k: nat)
    requires ValidInput(x) && Sound(x, l.st) && (Top(ifd) || l.st.used.Of(ifd))
    requires b < |l.st.visits| && l.st.visits[b] == v && v.ifd == ifd
    requires Target(tag).Some? ==> PointsTo(x, v, k, Target(tag).value, o)
    ensures var r := StepSpecial(l, ifd, x, tag, o, v.n, v.path);
      && Progress(x, l.st, r.st) && r.stop == (if Target(tag).Some? then l.stop else false)
      && (Target(tag).Some? && Target(tag).value != ifd ==> r.st.used.Of(Target(tag).value))
    decreases l.st.used.Unset(), 0, 1
  {
    hide Sound, LoadContent, TagTable.ValidTable, PathCost, ContentFrame, LoadThumbnail, PointsTo, Progress, Entered;
    hide Done;
    match Target(tag)
    case None =>
      var to := if tag == TAG_THUMBNAIL then o else l.to;
      var tl := if tag == TAG_THUMBNAIL then l.tl else o;
      SoundThumb(x, l.st, to, tl);
      ProgressSame(x, l.st, LoadThumbnail(l.st, x.d, to, tl));
      ProgressSame(x, l.st, l.st);
    case Some(i) =>
      if MayEnter(l.st, ifd, i) {
        EnterDone(l, ifd, x, i, o, v, b, k);
      } else {
        ProgressSame(x, l.st, l.st);
        if i != ifd && !l.st.used.Of(i) {
          NotEmpty(x, l.st, i);
        }
      }
  }

  /** A sub-directory with entries has been used. */
  lemma {:induction false} NotEmpty(x: Input, st: State, i: Ifd)
    requires ValidInput(x) && Sound(x, st) && !Top(i) && st.contents.Of(i) != []
    ensures st.used.Of(i)
  {
    hide Gathered, TagTable.ValidTable, PathCost;
    var k :| 0 <= k < |st.visits| && st.visits[k].ifd == i;
    assert VisitOk(x, st.visits[k], st);
  }

  lemma {:induction false} EnterDone(l: Loop, ifd: Ifd, x: Input, i: Ifd, o: nat, v: Visit, b: nat, k: nat)
    requires ValidInput(x) && Sound(x, l.st) && (Top(ifd) || l.st.used.Of(ifd))
    requires b < |l.st.visits| && l.st.visits[b] == v && v.ifd == ifd
    requires PointsTo(x, v, k, i, o) && MayEnter(l.st, ifd, i) && !Top(i)
    ensures var r := LoadContent(l.st.(used := l.st.used.Mark(i)), i, x, o, v.path + [v.n]);
      Progress(x, l.st, r) && r.used.Of(i)
    decreases l.st.used.Unset(), 0, 0
  {
    hide Sound, LoadContent, TagTable.ValidTable, PathCost, PointsTo, Done;
    var st := l.st.(used := l.st.used.Mark(i));
    SoundMark(x, l.st, i);
    UnusedIsUnvisited(x, l.st, i);
    assert !Visited(st, i);
    assert EnteredFrom(x, v, i, o, v.path + [v.n]);
    assert Rooted(x, st.visits, |st.visits|, i, o, v.path + [v.n]);
    ContentDone(st, i, x, o, v.path + [v.n]);
    ContentSound(st, i, x, o, v.path + [v.n]);
    var r := LoadContent(st, i, x, o, v.path + [v.n]);
    assert r.visits[..|st.visits|][b] == r.visits[b];
    if !Visited(r, i) {
      assert Refused(x, v, k, i, o);
      assert RefusedBy(x, r.visits[b], i);
    }
    forall j | r.used.Of(j) && !l.st.used.Of(j) ensures Entered(x, r.visits, j) {
      if j == i {
      } else {
        assert !st.used.Of(j);
      }
    }
  }

  lemma {:induction false} StepDone(l: Loop, ifd: Ifd, x: Input, v: Visit, b: nat, k: nat)
    requires ValidInput(x) && Sound(x, l.st) && (Top(ifd) || l.st.used.Of(ifd)) && !l.stop
    requires b < |l.st.visits| && l.st.visits[b] == v && v.ifd == ifd && k < v.n && v.at + 2 + 12 * v.n <= |x.d|
    ensures var r := StepRecord(l, ifd, x, v.at + 2, v.n, k, v.path);
      Progress(x, l.st, r.st) && Followed(x, r.st.used, v, k) && (r.stop <==> Stops(x, v, k))
    decreases l.st.used.Unset(), 1, 0
  {
    hide Sound, StepSpecial, TagTable.ValidTable, PathCost, GetShort, GetLong, Ordinary, Progress;
    var pos := v.at + 2 + 12 * k;
    var tag := GetShort(x.d, pos, x.order);
    ProgressSame(x, l.st, l.st);
    if !Special(tag) {
      OrdinaryQuiet(l.st, ifd, x, pos);
      ProgressSame(x, l.st, Ordinary(l.st, ifd, x, pos));
    } else {
      var o := GetLong(x.d, pos + 8, x.order);
      if o < |x.d| {
        SpecialDone(l, ifd, x, tag, o, v, b, k);
      }
    }
  }

  lemma {:induction false} OrdinaryQuiet(st: State, ifd: Ifd, x: Input, pos: nat)
    requires ValidInput(x) && pos + 12 <= |x.d|
    ensures Ordinary(st, ifd, x, pos).visits == st.visits && Ordinary(st, ifd, x, pos).used == st.used
  {
    hide LoadEntry, AddEntry, GetShort, TagTable.Named, TagTable.ValidTable;
  }

  lemma {:induction false} RecordsDone(l: Loop, ifd: Ifd, x: Input, v: Visit, b: nat, k: nat)
    requires ValidInput(x) && Sound(x, l.st) && (Top(ifd) || l.st.used.Of(ifd)) && !l.stop
    requires b < |l.st.visits| && l.st.visits[b] == v && v.ifd == ifd && k <= v.n && v.at + 2 + 12 * v.n <= |x.d|
    requires l.st.contents.Of(ifd) == Gather(x, ifd, v.at + 2, k)
    ensures var r := LoadRecords(l, ifd, x, v.at + 2, v.n, k, v.path);
      && Progress(x, l.st, r) && r.contents.Of(ifd) == Gather(x, ifd, v.at + 2, WalkEnd(x, v, k))
      && forall j :: k <= j < WalkEnd(x, v, k) ==> Followed(x, r.used, v, j)
    decreases l.st.used.Unset(), 2, v.n - k
  {
    hide Sound, StepRecord, TagTable.ValidTable, PathCost, Gather, Frame, Progress, Stops, Followed;
    ProgressSame(x, l.st, l.st);
    if k < v.n {
      StepDone(l, ifd, x, v, b, k);
      StepSound(l, ifd, x, v, k);
      var l' := StepRecord(l, ifd, x, v.at + 2, v.n, k, v.path);
      if Stops(x, v, k) {
        StopIsSpecial(x, v, k);
        GatherSkip(x, ifd, v.at + 2, k);
      } else {
        FrameUsed(l.st, l'.st, ifd);
        StillThere(l.st, l'.st, ifd, b);
        RecordsDone(l', ifd, x, v, b, k + 1);
        RecordsSound(l', ifd, x, v, k + 1);
        var r := LoadRecords(l', ifd, x, v.at + 2, v.n, k + 1, v.path);
        ProgressTrans(x, l.st, l'.st, r, ifd, b);
        FrameUsed(l'.st, r, ifd);
        FollowedKept(x, l'.st.used, r.used, v, k);
      }
    }
  }

  lemma {:induction false} StopIsSpecial(x: Input, v: Visit, k: nat)
    requires k < v.n && v.at + 2 + 12 * v.n <= |x.d| && Stops(x, v, k)
    ensures Special(GetShort(x.d, v.at + 2 + 12 * k, x.order))
  {
  }

  lemma {:induction false} FollowedKept(x: Input, a: Used, b: Used, v: Visit, k: nat)
    requires k < v.n && v.at + 2 + 12 * v.n <= |x.d| && Followed(x, a, v, k) && forall i :: a.Of(i) ==> b.Of(i)
    ensures Followed(x, b, v, k)
  {
    hide GetShort, GetLong;
  }

  lemma {:induction false} StillThere(a: State, b: State, ifd: Ifd, k: nat)
    requires Frame(a, b, ifd) && k < |a.visits|
    ensures k < |b.visits| && b.visits[k] == a.visits[k]
  {
    assert b.visits[..|a.visits|][k] == b.visits[k];
  }

  /**
   Loading a directory that has not been visited walks it, unless it is refused, and does all that follows from it.
   */
  lemma {:induction false} ContentDone(st: State, ifd: Ifd, x: Input, at: nat, path: seq<nat>)
    requires ValidInput(x) && Sound(x, st) && !Visited(st, ifd) && (Top(ifd) || st.used.Of(ifd))
    requires Rooted(x, st.visits, |st.visits|, ifd, at, path)
    ensures var r := LoadContent(st, ifd, x, at, path);
      Progress(x, st, r) && (Visited(r, ifd) <==> PathCost(path) <= 170 && at + 2 <= |x.d|)
    decreases st.used.Unset(), 3, 0
  {
    hide Sound, LoadRecords, TagTable.ValidTable, PathCost, Frame, RecordCount, Progress, Followed, Rooted;
    if PathCost(path) > MAX_COST || CheckOverflow(at, |x.d|, 2) {
      ProgressSame(x, st, st);
    } else {
      var n := RecordCount(x, at);
      var v := Visit(ifd, at, n, path);
      var s := st.(visits := st.visits + [v]);
      SoundVisit(x, st, v);
      EmptyAtFirst(x, st, ifd);
      assert v in s.visits by { assert s.visits[|st.visits|] == v; }
      var l := Loop(s, 0, 0, false);
      RecordsDone(l, ifd, x, v, |st.visits|, 0);
      RecordsSound(l, ifd, x, v, 0);
      var r := LoadRecords(l, ifd, x, at + 2, n, 0, path);
      StillThere(s, r, ifd, |st.visits|);
      ProgressVisit(x, st, v, r);
    }
  }

  lemma {:induction false} ProgressVisit(x: Input, st: State, v: Visit, r: State)
    requires ValidInput(x) && Progress(x, st.(visits := st.visits + [v]), r)
    requires |st.visits| < |r.visits| && r.visits[|st.visits|] == v && Done(x, r, v)
    ensures Progress(x, st, r)
  {
    hide Done, TagTable.ValidTable, Entered;
  }

  // ---- The block ----

  /** All walks are done, and every directory marked as used was walked or refused. */
  ghost predicate Complete(x: Input, st: State)
    requires ValidInput(x)
  {
    Progress(x, FRESH, st)
  }

  /** The fixed number behind the byte-order mark is there, and IFD 0 has room for its count. */
  predicate FirstThere(x: Input)
  {
    |x.d| >= 8 && GetShort(x.d, 2, x.order) == 0x2a && GetLong(x.d, 4, x.order) + 2 <= |x.d|
  }

  /** There is a link behind IFD 0, it is not zero, and IFD 1 has room for its count. */
  predicate SecondThere(x: Input)
    requires FirstThere(x)
  {
    var first := GetLong(x.d, 4, x.order);
    var link := first + 2 + 12 * GetShort(x.d, first, x.order);
    && link + 4 <= |x.d| && GetLong(x.d, link, x.order) != 0 && GetLong(x.d, link, x.order) + 2 <= |x.d|
  }

  lemma {:induction false} ContentTrans(x: Input, b: State, c: State, ifd: Ifd)
    requires ValidInput(x) && Sound(x, b) && Complete(x, b) && ContentFrame(b, c, ifd) && !Visited(b, ifd)
    requires Progress(x, b, c)
    ensures Complete(x, c)
  {
    hide Done, TagTable.ValidTable, Entered, Sound;
    forall j | 0 <= j < |c.visits| ensures Done(x, c, c.visits[j]) {
      if j < |b.visits| {
        assert c.visits[..|b.visits|][j] == c.visits[j];
        AtTopOrUsed(x, b, j);
        DoneStays(x, b, c, ifd, b.visits[j]);
      }
    }
    forall i | c.used.Of(i) ensures Entered(x, c.visits, i) {
      if b.used.Of(i) {
        EnteredKept(x, b.visits, c.visits, i);
      }
    }
  }

  lemma {:induction false} AtTopOrUsed(x: Input, st: State, a: nat)
    requires ValidInput(x) && Sound(x, st) && a < |st.visits|
    ensures Top(st.visits[a].ifd) || st.used.Of(st.visits[a].ifd)
  {
    hide Gathered, TagTable.ValidTable, PathCost;
    assert VisitOk(x, st.visits[a], st);
  }

  lemma {:induction false} DoneStays(x: Input, st: State, r: State, ifd: Ifd, v: Visit)
    requires ValidInput(x) && Done(x, st, v) && ContentFrame(st, r, ifd) && v.ifd != ifd
    requires Top(v.ifd) || st.used.Of(v.ifd)
    ensures Done(x, r, v)
  {
    hide Gather, WalkEnd, TagTable.ValidTable, GetShort, GetLong, RecordCount;
    forall k | 0 <= k < WalkEnd(x, v, 0) ensures Followed(x, r.used, v, k) {
      assert Followed(x, st.used, v, k);
    }
  }

  lemma {:induction false} StillVisited(st: State, r: State, ifd: Ifd, i: Ifd)
    requires ContentFrame(st, r, ifd) && i != ifd && Top(i)
    ensures Visited(r, i) <==> Visited(st, i)
  {
    if k :| 0 <= k < |st.visits| && st.visits[k].ifd == i {
      assert r.visits[..|st.visits|][k] == r.visits[k];
    }
    if k :| 0 <= k < |r.visits| && r.visits[k].ifd == i {
      assert k < |st.visits|;
      assert r.visits[..|st.visits|][k] == r.visits[k];
    }
  }

  lemma {:induction false} EmptyRoot(x: Input, visits: seq<Visit>, ifd: Ifd, at: nat)
    requires Top(ifd) && TopAt(x, ifd, at)
    ensures Rooted(x, visits, |visits|, ifd, at, []) && PathCost([]) == 0
  {
  }

  /** What a load of a block into a fresh object does: it walks what there is to walk, and to the end. */
  lemma {:induction false} BlockComplete(x: Input)
    requires ValidInput(x) && |x.d| >= 8
    ensures var r := LoadBlock(FRESH, x).st;
      && Complete(x, r) && (Visited(r, Ifd0) <==> FirstThere(x))
        && (Visited(r, Ifd1) <==> FirstThere(x) && SecondThere(x))
  {
    hide Sound, LoadContent, TagTable.ValidTable, GetShort, GetLong, Progress, PathCost, ContentFrame, Rooted;
    FreshIsSound(x);
    ProgressSame(x, FRESH, FRESH);
    var first := GetLong(x.d, 4, x.order);
    if GetShort(x.d, 2, x.order) == 0x2a && first + 2 <= |x.d| {
      var st := LoadContent(FRESH, Ifd0, x, first, []);
      EmptyRoot(x, [], Ifd0, first);
      ContentSound(FRESH, Ifd0, x, first, []);
      ContentDone(FRESH, Ifd0, x, first, []);
      StillVisited(FRESH, st, Ifd0, Ifd1);
      var link := first + 2 + 12 * GetShort(x.d, first, x.order);
      if link + 4 <= |x.d| {
        var next := GetLong(x.d, link, x.order);
        if next != 0 && next <= |x.d| {
          var r := LoadContent(st, Ifd1, x, next, []);
          EmptyRoot(x, st.visits, Ifd1, next);
          ContentSound(st, Ifd1, x, next, []);
          ContentDone(st, Ifd1, x, next, []);
          ContentTrans(x, st, r, Ifd1);
          StillVisited(st, r, Ifd1, Ifd0);
        }
      }
    }
  }

  /** The same for a load of any bytes in which a block is found. */
  lemma {:induction false} LoadIsComplete(order: ByteOrder, b: bytes, table: seq<TagTable.Row>, ignoreUnknown: bool)
    requires TagTable.ValidTable(table) && FindExif(b).Some?
    ensures var r := LoadFile(order, FRESH, b, table, ignoreUnknown); var x :=
      LookedAt(b, r.order, table, ignoreUnknown);
      && ValidInput(x) && Complete(x, r.st)
      && (DeclaredOrder(x.d).Some? ==>
            && x.order == DeclaredOrder(x.d).value
            && (Visited(r.st, Ifd0) <==> FirstThere(x)) && (Visited(r.st, Ifd1) <==> FirstThere(x) && SecondThere(x)))
  {
    hide LoadBlock, TagTable.ValidTable, FindExif, Progress, FirstThere, SecondThere, Visited;
    var d := Capped(FindExif(b).value);
    ProgressSame(LookedAt(b, order, table, ignoreUnknown), FRESH, FRESH);
    match DeclaredOrder(d)
    case None =>
    case Some(o) =>
      var x := Input(d, o, table, ignoreUnknown);
      BlockComplete(x);
      BlockOrder(x);
  }

  // ---- What a load of any bytes means for those bytes ----

  ghost predicate PieceOf(b: bytes, x: bytes)
  {
    exists at :: LiesAt(b, at, x)
  }

  /** The block that is looked at is a piece of the input. */
  lemma {:induction false} BlockInInput(b: bytes) returns (o: nat)
    requires FindExif(b).Some?
    ensures LiesAt(b, o, Capped(FindExif(b).value))
  {
    hide Search;
    var f := FindExif(b).value;
    var end := if |f| > 0xfffe then 0xfffe else |f|;
    if LiesAt(b, 0, EXIF_HEADER) {
      o := 6;
      LiesAtSlice(b, 6, b[6..end]);
    } else {
      var j := Search(b, 0).value;
      o := j + 9;
      assert f == b[j + 3..j + 3 + |f|];
      LiesAtSlice(b, o, b[o..o + end - 6]);
      assert b[o..o + end - 6] == f[6..end];
    }
  }

  lemma {:induction false} PieceOfBlock(b: bytes, o: nat, d: bytes, at: nat, x: bytes)
    requires LiesAt(b, o, d) && LiesAt(d, at, x)
    ensures PieceOf(b, x)
  {
    hide LiesAt;
    LiesWithin(b, o, d, at, x);
  }

  /** A loaded entry has exactly the data its format and count speak of. */
  predicate Exact(e: Entry)
  {
    |e.data| == FormatSize(e.format) * e.components && |e.data| > 0
  }

  /**
   The entries `es` are those of the directory `ifd` of `n` records at `at` in the bytes that are looked at: each entry
   is that of the first well-formed record with its tag, and no well-formed record's tag is missing.
   */
  ghost predicate FirstOnes(x: Input, ifd: Ifd, at: nat, n: nat, es: seq<Entry>)
    requires ValidInput(x)
  {
    && at + 12 * n <= |x.d|
    && (forall j :: 0 <= j < |es| ==> FromFirst(x, ifd, at, n, es[j]))
    && forall k :: 0 <= k < n ==> TagKept(x, ifd, at, k, es)
  }

  ghost predicate TagKept(x: Input, ifd: Ifd, at: nat, k: nat, es: seq<Entry>)
    requires ValidInput(x) && at + 12 * k + 12 <= |x.d|
  {
    Storable(x, ifd, at + 12 * k) ==> HasTag(es, LoadEntry(x, at + 12 * k).value.e.tag)
  }

  /** What gathering the records of a walk up to its end means. */
  lemma {:induction false} WalkMeaning(b: bytes, o: nat, x: Input, st: State, v: Visit)
    requires ValidInput(x) && LiesAt(b, o, x.d) && Done(x, st, v)
    ensures var es := st.contents.Of(v.ifd);
      && DistinctTags(es) && FirstOnes(x, v.ifd, v.at + 2, WalkEnd(x, v, 0), es)
      && forall j :: 0 <= j < |es| ==> !Special(es[j].tag) && Exact(es[j]) && PieceOf(b, es[j].data)
  {
    hide LoadEntry, Storable, TagTable.ValidTable, Special, Gather, LiesAt, FormatSize, PieceOf, DistinctTags, HasTag;
    hide WalkEnd, RecordCount, Followed;
    var at, m, es := v.at + 2, WalkEnd(x, v, 0), st.contents.Of(v.ifd);
    GatherMeaning(x, v.ifd, at, m);
    forall j | 0 <= j < |es| ensures !Special(es[j].tag) && Exact(es[j]) && PieceOf(b, es[j].data) {
      assert FromFirst(x, v.ifd, at, m, es[j]);
      var k: nat :| k < m && FirstWith(x, v.ifd, at, k, es[j]);
      StorableTag(x, v.ifd, at + 12 * k);
      EntryMeaning(x, at + 12 * k);
      PieceOfBlock(b, o, x.d, LoadEntry(x, at + 12 * k).value.at, es[j].data);
    }
  }

  /**
   What a finished load stores: a directory that was walked holds the gathering of its records up to the end of its one
   walk, one that was not walked holds nothing, and the thumbnail is a piece of the block.
   */
  lemma {:induction false} LoadMeaning(x: Input, st: State, i: Ifd)
    requires ValidInput(x) && Sound(x, st) && Complete(x, st)
    ensures forall k :: 0 <= k < |st.visits| && st.visits[k].ifd == i ==> Done(x, st, st.visits[k])
    ensures !Visited(st, i) ==> st.contents.Of(i) == []
    ensures st.thumb == [] || exists o :: LiesAt(x.d, o, st.thumb)
  {
    hide TagTable.ValidTable, VisitOk, Done;
  }

  /** The entries of directory `i` are those of the walk `v`. */
  ghost predicate FromWalk(x: Input, v: Visit, es: seq<Entry>)
    requires ValidInput(x)
  {
    && Counted(x, v)
    && FirstOnes(x, v.ifd, v.at + 2, WalkEnd(x, v, 0), es)
  }

  lemma {:induction false} DoneFromWalk(x: Input, st: State, v: Visit)
    requires ValidInput(x) && Done(x, st, v) && FirstOnes(x, v.ifd, v.at + 2, WalkEnd(x, v, 0), st.contents.Of(v.ifd))
    ensures FromWalk(x, v, st.contents.Of(v.ifd))
  {
    hide Gather, FirstOnes, WalkEnd, RecordCount, TagTable.ValidTable, Followed;
  }

  /**
   The functional meaning of a load of any bytes into a fresh object. In every directory no tag is special or there
   twice, and every entry's data are a piece of the input of size format size times components. A directory that was
   walked holds, of the records it says it has, up to the one that ends the walk, for each tag the entry of the first
   well-formed one, and nothing else; one that was not walked is empty. The thumbnail is a piece of the input.
   */
  lemma {:induction false} LoadedMeaning(order: ByteOrder, b: bytes, table: seq<TagTable.Row>, ignoreUnknown: bool,
                                         i: Ifd)
    requires TagTable.ValidTable(table)
    ensures var r := LoadFile(order, FRESH, b, table, ignoreUnknown); var es := r.st.contents.Of(i);
      && DistinctTags(es)
      && (forall j :: 0 <= j < |es| ==> !Special(es[j].tag) && Exact(es[j]) && PieceOf(b, es[j].data))
      && (FindExif(b).Some? ==> ValidInput(LookedAt(b, r.order, table, ignoreUnknown)))
      && (forall k :: 0 <= k < |r.st.visits| && r.st.visits[k].ifd == i ==>
            FindExif(b).Some? && FromWalk(LookedAt(b, r.order, table, ignoreUnknown), r.st.visits[k], es))
      && (!Visited(r.st, i) ==> es == [])
      && (r.st.thumb == [] || PieceOf(b, r.st.thumb))
  {
    hide LoadFile, Sound, TagTable.ValidTable, FindExif, PieceOf, Exact, Special, DistinctTags, FirstOnes, Complete;
    hide Done, WalkEnd;
    hide FromWalk;
    LoadIsSound(order, b, table, ignoreUnknown);
    var r := LoadFile(order, FRESH, b, table, ignoreUnknown);
    EmptyMeaning();
    if FindExif(b).Some? {
      LoadIsComplete(order, b, table, ignoreUnknown);
      var x := LookedAt(b, r.order, table, ignoreUnknown);
      var o := BlockInInput(b);
      LoadMeaning(x, r.st, i);
      if r.st.thumb != [] {
        var at: nat :| LiesAt(x.d, at, r.st.thumb);
        PieceOfBlock(b, o, x.d, at, r.st.thumb);
      }
      if Visited(r.st, i) {
        forall k | 0 <= k < |r.st.visits| && r.st.visits[k].ifd == i
          ensures FromWalk(x, r.st.visits[k], r.st.contents.Of(i)) {
          WalkMeaning(b, o, x, r.st, r.st.visits[k]);
          DoneFromWalk(x, r.st, r.st.visits[k]);
        }
        var k :| 0 <= k < |r.st.visits| && r.st.visits[k].ifd == i;
        WalkMeaning(b, o, x, r.st, r.st.visits[k]);
      }
    }
  }

  lemma {:induction false} EmptyMeaning()
    ensures DistinctTags([])
  {
  }
}
