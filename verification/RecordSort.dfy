/** The library sort, applied to the twelve-byte records of a directory. */
module RecordSort {
  import opened Bytes
  import opened Tiff
  import opened ExifLayout
  import opened ExifSorted

  /** The records of a run, one by one. */
  function Chunks(b: bytes, n: nat): (cs: seq<bytes>)
    requires |b| == 12 * n
    ensures |cs| == n && forall k :: 0 <= k < n ==> |cs[k]| == 12
  {
    seq(n, k requires 0 <= k < n => b[12 * k..12 * k + 12])
  }

  /** The tag a comparison looks at. */
  function Key(c: bytes, order: ByteOrder): int
  {
    if |c| < 2 then 0 else GetShort(c, 0, order)
  }

  predicate KeysAscend(cs: seq<bytes>, order: ByteOrder)
  {
    forall i, j :: 0 <= i < j < |cs| ==> Key(cs[i], order) <= Key(cs[j], order)
  }

  predicate KeysDistinct(cs: seq<bytes>, order: ByteOrder)
  {
    forall i, j :: 0 <= i < j < |cs| ==> Key(cs[i], order) != Key(cs[j], order)
  }

  function Joined(cs: seq<bytes>, n: nat): (b: bytes)
    requires n <= |cs|
  {
    if n == 0 then [] else Joined(cs, n - 1) + cs[n - 1]
  }

  lemma {:induction false} JoinedLength(cs: seq<bytes>, n: nat)
    requires n <= |cs| && forall k :: 0 <= k < |cs| ==> |cs[k]| == 12
    ensures |Joined(cs, n)| == 12 * n
  {
    if n > 0 {
      JoinedLength(cs, n - 1);
    }
  }

  lemma {:induction false} JoinedAt(cs: seq<bytes>, n: nat, k: nat)
    requires k < n <= |cs| && forall j :: 0 <= j < |cs| ==> |cs[j]| == 12
    ensures |Joined(cs, n)| == 12 * n && Joined(cs, n)[12 * k..12 * k + 12] == cs[k]
  {
    JoinedLength(cs, n);
    JoinedLength(cs, n - 1);
    if k < n - 1 {
      JoinedAt(cs, n - 1, k);
    }
  }

  lemma {:induction false} ChunksOfJoined(cs: seq<bytes>)
    requires forall j :: 0 <= j < |cs| ==> |cs[j]| == 12
    ensures |Joined(cs, |cs|)| == 12 * |cs| && Chunks(Joined(cs, |cs|), |cs|) == cs
  {
    hide Joined;
    JoinedLength(cs, |cs|);
    forall k | 0 <= k < |cs| ensures Chunks(Joined(cs, |cs|), |cs|)[k] == cs[k] {
      JoinedAt(cs, |cs|, k);
    }
  }

  /** A run is determined by its records. */
  lemma {:induction false} ChunksInjective(a: bytes, b: bytes, n: nat)
    requires |a| == |b| == 12 * n && Chunks(a, n) == Chunks(b, n)
    ensures a == b
  {
    forall i | 0 <= i < |a| ensures a[i] == b[i] {
      var k := i / 12;
      assert Chunks(a, n)[k] == a[12 * k..12 * k + 12] && Chunks(b, n)[k] == b[12 * k..12 * k + 12];
      assert a[i] == a[12 * k..12 * k + 12][i - 12 * k];
    }
  }

  /** Where a record goes among sorted ones. */
  method InsertionPoint(cs: seq<bytes>, c: bytes, order: ByteOrder) returns (k: nat)
    requires KeysAscend(cs, order)
    ensures k <= |cs|
    ensures forall i :: 0 <= i < k ==> Key(cs[i], order) < Key(c, order)
    ensures forall i :: k <= i < |cs| ==> Key(c, order) <= Key(cs[i], order)
  {
    hide Key;
    k := 0;
    while k < |cs| && Key(cs[k], order) < Key(c, order)
      invariant k <= |cs| && forall i :: 0 <= i < k ==> Key(cs[i], order) < Key(c, order)
    {
      k := k + 1;
    }
  }

  /** qsort on records: a permutation in ascending tag order, nothing said about records with equal tags. */
  method QSort(b: bytes, n: nat, order: ByteOrder) returns (r: bytes)
    requires |b| == 12 * n
    ensures |r| == |b| && KeysAscend(Chunks(r, n), order) && multiset(Chunks(r, n)) == multiset(Chunks(b, n))
  {
    hide Key, Joined, KeysAscend;
    EmptyAscends(order);
    var cs: seq<bytes> := [];
    var all := Chunks(b, n);
    for i := 0 to n
      invariant |cs| == i && KeysAscend(cs, order) && (forall j :: 0 <= j < i ==> |cs[j]| == 12)
      invariant multiset(cs) == multiset(all[..i])
    {
      var k := InsertionPoint(cs, all[i], order);
      InsertedMembers(cs, k, all, i);
      InsertedAscends(cs, k, all[i], order);
      cs := cs[..k] + [all[i]] + cs[k..];
    }
    assert all[..n] == all;
    ChunksOfJoined(cs);
    r := Joined(cs, n);
  }

  lemma {:induction false} EmptyAscends(order: ByteOrder)
    ensures KeysAscend([], order)
  {
  }

  lemma {:induction false} InsertedMembers(cs: seq<bytes>, k: nat, all: seq<bytes>, i: nat)
    requires k <= |cs| && i < |all| && multiset(cs) == multiset(all[..i])
    ensures multiset(cs[..k] + [all[i]] + cs[k..]) == multiset(all[..i + 1])
  {
    assert cs == cs[..k] + cs[k..];
    assert all[..i + 1] == all[..i] + [all[i]];
  }

  lemma {:induction false} InsertedAscends(cs: seq<bytes>, k: nat, c: bytes, order: ByteOrder)
    requires KeysAscend(cs, order) && k <= |cs|
    requires forall i :: 0 <= i < k ==> Key(cs[i], order) < Key(c, order)
    requires forall i :: k <= i < |cs| ==> Key(c, order) <= Key(cs[i], order)
    ensures KeysAscend(cs[..k] + [c] + cs[k..], order)
  {
    hide Key;
  }

  // ---- Distinct tags leave one outcome ----

  lemma {:induction false} WithoutOne<T>(s: seq<T>, k: nat)
    requires k < |s|
    ensures multiset(s[..k] + s[k + 1..]) == multiset(s) - multiset{s[k]}
  {
    assert s == s[..k] + [s[k]] + s[k + 1..];
  }

  lemma {:induction false} TailOf<T>(s: seq<T>)
    requires s != []
    ensures multiset(s[1..]) == multiset(s) - multiset{s[0]}
  {
    WithoutOne(s, 0);
    assert s[..0] + s[0 + 1..] == s[1..];
  }

  /** Both lists start with the same record: one with the least key. */
  lemma {:induction false} FirstEqual(a: seq<bytes>, b: seq<bytes>, order: ByteOrder)
    requires KeysAscend(a, order) && KeysAscend(b, order) && KeysDistinct(b, order) && multiset(a) == multiset(b)
    requires a != [] && b != []
    ensures a[0] == b[0]
  {
    hide Key;
    assert a[0] in multiset(a) && b[0] in multiset(b);
    var i :| 0 <= i < |b| && b[i] == a[0];
    var j :| 0 <= j < |a| && a[j] == b[0];
    assert Key(a[0], order) <= Key(a[j], order);
  }

  lemma {:induction false} SortedUnique(a: seq<bytes>, b: seq<bytes>, order: ByteOrder)
    requires KeysAscend(a, order) && KeysAscend(b, order) && KeysDistinct(b, order) && multiset(a) == multiset(b)
    ensures a == b
    decreases |a|
  {
    hide Key;
    SameLength(a, b);
    if a != [] {
      FirstEqual(a, b, order);
      TailOf(a);
      TailOf(b);
      SortedUnique(a[1..], b[1..], order);
      assert a == [a[0]] + a[1..] && b == [b[0]] + b[1..];
    }
  }

  lemma {:induction false} SameLength(a: seq<bytes>, b: seq<bytes>)
    requires multiset(a) == multiset(b)
    ensures |a| == |b|
  {
    assert |multiset(a)| == |a| && |multiset(b)| == |b|;
  }

  lemma {:induction false} RecordChunk(items: seq<Item>, n: nat, order: ByteOrder, k: nat)
    requires k < n == |items|
    ensures Chunks(Records(items, n, order), n)[k] == Record(items[k], order)
  {
    hide Record, Records;
    RecordsAt(items, n, order, k);
    LiesAtSlice(Records(items, n, order), 12 * k, Record(items[k], order));
  }

  lemma {:induction false} RecordKey(i: Item, order: ByteOrder)
    requires 0 <= i.slot.tag < U16
    ensures Key(Record(i, order), order) == i.slot.tag
  {
    hide Record, EncShort, GetShort;
    LiesInItself(Record(i, order));
    RecordBlocks(i, order, Record(i, order), 0);
    ShortAt(Record(i, order), 0, i.slot.tag, order);
  }

  ghost function RecordList(items: seq<Item>, order: ByteOrder): (rs: seq<bytes>)
    ensures |rs| == |items|
  {
    seq(|items|, k requires 0 <= k < |items| => Record(items[k], order))
  }

  lemma {:induction false} ChunksOfRecords(items: seq<Item>, order: ByteOrder)
    ensures Chunks(Records(items, |items|, order), |items|) == RecordList(items, order)
  {
    hide Record, Records;
    forall k | 0 <= k < |items| ensures Chunks(Records(items, |items|, order), |items|)[k] == Record(items[k], order) {
      RecordChunk(items, |items|, order, k);
    }
  }

  /** The list of records is a permutation when the items are. */
  lemma {:induction false} RecordListMembers(a: seq<Item>, b: seq<Item>, order: ByteOrder)
    requires multiset(a) == multiset(b)
    ensures multiset(RecordList(a, order)) == multiset(RecordList(b, order))
    decreases |a|
  {
    hide Record, RecordList;
    if a == [] {
      assert |multiset(b)| == |b|;
      assert b == [];
    } else {
      assert a[0] in multiset(b);
      var k :| 0 <= k < |b| && b[k] == a[0];
      TailOf(a);
      WithoutOne(b, k);
      RecordListMembers(a[1..], b[..k] + b[k + 1..], order);
      RecordListSplit(b, k, order);
      RecordListSplit(a, 0, order);
      assert a[..0] + a[0 + 1..] == a[1..];
    }
  }

  lemma {:induction false} RecordListSplit(b: seq<Item>, k: nat, order: ByteOrder)
    requires k < |b|
    ensures multiset(RecordList(b, order))
      == multiset{Record(b[k], order)} + multiset(RecordList(b[..k] + b[k + 1..], order))
  {
    hide Record;
    var l, r := RecordList(b[..k], order), RecordList(b[k + 1..], order);
    assert RecordList(b, order) == l + [Record(b[k], order)] + r;
    assert RecordList(b[..k] + b[k + 1..], order) == l + r;
  }

  lemma {:induction false} ListKeys(items: seq<Item>, order: ByteOrder)
    requires forall k :: 0 <= k < |items| ==> 0 <= items[k].slot.tag < U16
    requires StrictlySorted(items)
    ensures KeysAscend(RecordList(items, order), order) && KeysDistinct(RecordList(items, order), order)
  {
    hide Record, Key;
    forall k | 0 <= k < |items| ensures Key(RecordList(items, order)[k], order) == items[k].slot.tag {
      RecordKey(items[k], order);
    }
  }

  /** Records with distinct tags sort into the one sorted directory. */
  lemma {:induction false} SortedRecords(items: seq<Item>, r: bytes, order: ByteOrder)
    requires DistinctItems(items) && forall k :: 0 <= k < |items| ==> 0 <= items[k].slot.tag < U16
    requires |r| == 12 * |items| && KeysAscend(Chunks(r, |items|), order)
    requires multiset(Chunks(r, |items|)) == multiset(Chunks(Records(items, |items|, order), |items|))
    ensures r == Records(Sorted(items), |items|, order)
  {
    hide Key, Record, Records, Sorted, Chunks, KeysAscend, KeysDistinct, RecordList;
    var n := |items|;
    var s := Sorted(items);
    SortedStrictly(items);
    SortedMembers(items);
    assert forall k :: 0 <= k < n ==> 0 <= s[k].slot.tag < U16 by {
      forall k | 0 <= k < n ensures 0 <= s[k].slot.tag < U16 {
        assert s[k] in multiset(s);
        assert s[k] in items;
      }
    }
    ChunksOfRecords(items, order);
    ChunksOfRecords(s, order);
    RecordListMembers(items, s, order);
    ListKeys(s, order);
    SortedUnique(Chunks(r, n), RecordList(s, order), order);
    ChunksInjective(r, Records(s, n, order), n);
  }
}
