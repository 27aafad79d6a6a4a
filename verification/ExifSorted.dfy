/** Sorting the records of a directory, and the entries among them. */
module ExifSorted {
  import opened Tiff
  import opened ExifTypes
  import opened ExifLayout
  import opened ExifWalk

  predicate StrictlySorted(xs: seq<Item>)
  {
    forall i, j :: 0 <= i < j < |xs| ==> xs[i].slot.tag < xs[j].slot.tag
  }

  predicate DistinctItems(xs: seq<Item>)
  {
    forall i, j :: 0 <= i < j < |xs| ==> xs[i].slot.tag != xs[j].slot.tag
  }

  lemma {:induction false} InsertMembers(x: Item, xs: seq<Item>)
    ensures multiset(Insert(x, xs)) == multiset{x} + multiset(xs)
    decreases |xs|
  {
    if xs == [] || x.slot.tag <= xs[0].slot.tag {
    } else {
      InsertMembers(x, xs[1..]);
      assert xs == [xs[0]] + xs[1..];
    }
  }

  /** Sorting loses and invents nothing. */
  lemma {:induction false} SortedMembers(xs: seq<Item>)
    ensures multiset(Sorted(xs)) == multiset(xs)
    decreases |xs|
  {
    if xs != [] {
      SortedMembers(xs[1..]);
      InsertMembers(xs[0], Sorted(xs[1..]));
      assert xs == [xs[0]] + xs[1..];
    }
  }

  lemma {:induction false} InsertSorted(x: Item, xs: seq<Item>)
    requires TagSorted(xs)
    ensures TagSorted(Insert(x, xs))
    decreases |xs|
  {
    if xs == [] || x.slot.tag <= xs[0].slot.tag {
    } else {
      InsertSorted(x, xs[1..]);
      InsertBounded(x, xs[1..], xs[0].slot.tag);
    }
  }

  lemma {:induction false} InsertBounded(x: Item, xs: seq<Item>, low: int)
    requires low <= x.slot.tag && forall i :: 0 <= i < |xs| ==> low <= xs[i].slot.tag
    ensures forall i :: 0 <= i < |Insert(x, xs)| ==> low <= Insert(x, xs)[i].slot.tag
    decreases |xs|
  {
    if xs == [] || x.slot.tag <= xs[0].slot.tag {
    } else {
      InsertBounded(x, xs[1..], low);
    }
  }

  lemma {:induction false} SortedIsSorted(xs: seq<Item>)
    ensures TagSorted(Sorted(xs))
    decreases |xs|
  {
    if xs != [] {
      SortedIsSorted(xs[1..]);
      InsertSorted(xs[0], Sorted(xs[1..]));
    }
  }

  lemma {:induction false} InsertDistinct(x: Item, xs: seq<Item>)
    requires DistinctItems(xs) && forall i :: 0 <= i < |xs| ==> xs[i].slot.tag != x.slot.tag
    ensures DistinctItems(Insert(x, xs))
    decreases |xs|
  {
    if xs == [] || x.slot.tag <= xs[0].slot.tag {
    } else {
      InsertDistinct(x, xs[1..]);
      InsertAvoids(x, xs[1..], xs[0].slot.tag);
    }
  }

  lemma {:induction false} InsertAvoids(x: Item, xs: seq<Item>, tag: int)
    requires x.slot.tag != tag && forall i :: 0 <= i < |xs| ==> xs[i].slot.tag != tag
    ensures forall i :: 0 <= i < |Insert(x, xs)| ==> Insert(x, xs)[i].slot.tag != tag
    decreases |xs|
  {
    if xs == [] || x.slot.tag <= xs[0].slot.tag {
    } else {
      InsertAvoids(x, xs[1..], tag);
    }
  }

  lemma {:induction false} SortedAvoids(xs: seq<Item>, tag: int)
    requires forall i :: 0 <= i < |xs| ==> xs[i].slot.tag != tag
    ensures forall i :: 0 <= i < |Sorted(xs)| ==> Sorted(xs)[i].slot.tag != tag
    decreases |xs|
  {
    if xs != [] {
      SortedAvoids(xs[1..], tag);
      InsertAvoids(xs[0], Sorted(xs[1..]), tag);
    }
  }

  lemma {:induction false} SortedDistinct(xs: seq<Item>)
    requires DistinctItems(xs)
    ensures DistinctItems(Sorted(xs))
    decreases |xs|
  {
    if xs != [] {
      SortedDistinct(xs[1..]);
      SortedAvoids(xs[1..], xs[0].slot.tag);
      InsertDistinct(xs[0], Sorted(xs[1..]));
    }
  }

  /** Records with distinct tags come out in strictly ascending order, as TIFF 6.0 demands. */
  lemma {:induction false} SortedStrictly(xs: seq<Item>)
    requires DistinctItems(xs)
    ensures StrictlySorted(Sorted(xs))
  {
    SortedIsSorted(xs);
    SortedDistinct(xs);
  }

  // ---- The entries among the records ----

  /** The entries among the first `n` records. */
  function Kept(xs: seq<Item>, n: nat): (es: seq<Entry>)
    requires n <= |xs|
  {
    if n == 0 then []
    else if Special(xs[n - 1].slot.tag) then Kept(xs, n - 1)
    else Kept(xs, n - 1) + [EntryOf(xs[n - 1])]
  }

  lemma {:induction false} KeptCons(x: Item, xs: seq<Item>, n: nat)
    requires n <= |xs|
    ensures Kept([x] + xs, n + 1) == if Special(x.slot.tag) then Kept(xs, n) else [EntryOf(x)] + Kept(xs, n)
  {
    hide EntryOf;
    if n > 0 {
      KeptCons(x, xs, n - 1);
      assert ([x] + xs)[n] == xs[n - 1];
    }
  }

  lemma {:induction false} KeptConcat(xs: seq<Item>, ys: seq<Item>, n: nat)
    requires n <= |ys|
    ensures Kept(xs + ys, |xs| + n) == Kept(xs, |xs|) + Kept(ys, n)
  {
    hide EntryOf;
    if n > 0 {
      KeptConcat(xs, ys, n - 1);
      assert (xs + ys)[|xs| + n - 1] == ys[n - 1];
    } else {
      KeptPrefix(xs, ys, |xs|);
    }
  }

  lemma {:induction false} KeptPrefix(xs: seq<Item>, ys: seq<Item>, n: nat)
    requires n <= |xs|
    ensures Kept(xs + ys, n) == Kept(xs, n)
  {
    hide EntryOf;
    if n > 0 {
      KeptPrefix(xs, ys, n - 1);
    }
  }

  function InsertEntry(e: Entry, es: seq<Entry>): (r: seq<Entry>)
  {
    if es == [] || e.tag <= es[0].tag then [e] + es else [es[0]] + InsertEntry(e, es[1..])
  }

  /** The entries of a directory in ascending tag order. */
  function SortedEntries(es: seq<Entry>): (r: seq<Entry>)
  {
    if es == [] then [] else InsertEntry(es[0], SortedEntries(es[1..]))
  }

  lemma {:induction false} KeptTail(xs: seq<Item>)
    requires xs != []
    ensures Kept(xs, |xs|) == if Special(xs[0].slot.tag) then Kept(xs[1..], |xs| - 1)
      else [EntryOf(xs[0])] + Kept(xs[1..], |xs| - 1)
  {
    KeptCons(xs[0], xs[1..], |xs| - 1);
    assert [xs[0]] + xs[1..] == xs;
  }

  lemma {:induction false} KeptInsert(x: Item, xs: seq<Item>)
    requires TagSorted(xs)
    ensures Kept(Insert(x, xs), |xs| + 1) == if Special(x.slot.tag) then Kept(xs, |xs|)
      else InsertEntry(EntryOf(x), Kept(xs, |xs|))
    decreases |xs|
  {
    hide Special;
    if xs == [] || x.slot.tag <= xs[0].slot.tag {
      KeptCons(x, xs, |xs|);
      if !Special(x.slot.tag) {
        KeptFromBelow(x.slot.tag, xs, |xs|);
      }
    } else {
      KeptInsert(x, xs[1..]);
      KeptTail(xs);
      KeptCons(xs[0], Insert(x, xs[1..]), |xs|);
      if !Special(xs[0].slot.tag) {
        assert Kept(xs, |xs|)[1..] == Kept(xs[1..], |xs| - 1);
      }
    }
  }

  lemma {:induction false} KeptFromBelow(low: int, xs: seq<Item>, n: nat)
    requires n <= |xs| && forall i :: 0 <= i < |xs| ==> low <= xs[i].slot.tag
    ensures forall i :: 0 <= i < |Kept(xs, n)| ==> low <= Kept(xs, n)[i].tag
  {
    if n > 0 {
      KeptFromBelow(low, xs, n - 1);
    }
  }

  /** The entries of the sorted records are the sorted entries of the records. */
  lemma {:induction false} KeptSorted(xs: seq<Item>)
    ensures Kept(Sorted(xs), |xs|) == SortedEntries(Kept(xs, |xs|))
    decreases |xs|
  {
    if xs != [] {
      KeptSorted(xs[1..]);
      SortedIsSorted(xs[1..]);
      KeptInsert(xs[0], Sorted(xs[1..]));
      KeptTail(xs);
      var k := Kept(xs[1..], |xs| - 1);
      if !Special(xs[0].slot.tag) {
        assert Kept(xs, |xs|)[1..] == k;
      }
    }
  }

  // ---- Sorted entries ----

  predicate EntriesAscend(es: seq<Entry>)
  {
    forall i, j :: 0 <= i < j < |es| ==> es[i].tag <= es[j].tag
  }

  lemma {:induction false} InsertEntryMembers(e: Entry, es: seq<Entry>)
    ensures multiset(InsertEntry(e, es)) == multiset{e} + multiset(es)
    decreases |es|
  {
    if es == [] || e.tag <= es[0].tag {
    } else {
      InsertEntryMembers(e, es[1..]);
      assert es == [es[0]] + es[1..];
    }
  }

  lemma {:induction false} InsertEntryAscends(e: Entry, es: seq<Entry>)
    requires EntriesAscend(es)
    ensures EntriesAscend(InsertEntry(e, es))
    decreases |es|
  {
    if es == [] || e.tag <= es[0].tag {
    } else {
      InsertEntryAscends(e, es[1..]);
      InsertEntryBounded(e, es[1..], es[0].tag);
    }
  }

  lemma {:induction false} InsertEntryBounded(e: Entry, es: seq<Entry>, low: int)
    requires low <= e.tag && forall i :: 0 <= i < |es| ==> low <= es[i].tag
    ensures forall i :: 0 <= i < |InsertEntry(e, es)| ==> low <= InsertEntry(e, es)[i].tag
    decreases |es|
  {
    if es == [] || e.tag <= es[0].tag {
    } else {
      InsertEntryBounded(e, es[1..], low);
    }
  }

  /** The same entries, in ascending tag order. */
  lemma {:induction false} SortedEntriesMeaning(es: seq<Entry>)
    ensures multiset(SortedEntries(es)) == multiset(es) && EntriesAscend(SortedEntries(es))
    decreases |es|
  {
    if es != [] {
      SortedEntriesMeaning(es[1..]);
      InsertEntryMembers(es[0], SortedEntries(es[1..]));
      InsertEntryAscends(es[0], SortedEntries(es[1..]));
      assert es == [es[0]] + es[1..];
    }
  }

  /** Entries in order are left alone. */
  lemma {:induction false} AlreadySorted(es: seq<Entry>)
    requires EntriesAscend(es)
    ensures SortedEntries(es) == es
    decreases |es|
  {
    if es != [] {
      AlreadySorted(es[1..]);
      assert es == [es[0]] + es[1..];
    }
  }

  lemma {:induction false} InsertEntryDistinct(e: Entry, es: seq<Entry>)
    requires DistinctTags(es) && forall i :: 0 <= i < |es| ==> es[i].tag != e.tag
    ensures DistinctTags(InsertEntry(e, es))
    decreases |es|
  {
    if es == [] || e.tag <= es[0].tag {
    } else {
      InsertEntryDistinct(e, es[1..]);
      InsertEntryAvoids(e, es[1..], es[0].tag);
    }
  }

  lemma {:induction false} InsertEntryAvoids(e: Entry, es: seq<Entry>, tag: int)
    requires e.tag != tag && forall i :: 0 <= i < |es| ==> es[i].tag != tag
    ensures forall i :: 0 <= i < |InsertEntry(e, es)| ==> InsertEntry(e, es)[i].tag != tag
    decreases |es|
  {
    if es == [] || e.tag <= es[0].tag {
    } else {
      InsertEntryAvoids(e, es[1..], tag);
    }
  }

  lemma {:induction false} SortedEntriesAvoid(es: seq<Entry>, tag: int)
    requires forall i :: 0 <= i < |es| ==> es[i].tag != tag
    ensures forall i :: 0 <= i < |SortedEntries(es)| ==> SortedEntries(es)[i].tag != tag
    decreases |es|
  {
    if es != [] {
      SortedEntriesAvoid(es[1..], tag);
      InsertEntryAvoids(es[0], SortedEntries(es[1..]), tag);
    }
  }

  lemma {:induction false} SortedEntriesDistinct(es: seq<Entry>)
    requires DistinctTags(es)
    ensures DistinctTags(SortedEntries(es))
    decreases |es|
  {
    if es != [] {
      SortedEntriesDistinct(es[1..]);
      SortedEntriesAvoid(es[1..], es[0].tag);
      InsertEntryDistinct(es[0], SortedEntries(es[1..]));
    }
  }
}
