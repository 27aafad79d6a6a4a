/** Byte-order changes of a maker note, and the flat list of values a Canon note presents. */
module MakerNoteOrder {
  import opened Bytes
  import opened ByteOrderSwitch
  import Tiff
  import opened MakerNote

  // ---- Byte order ----

  /** The value is too short for what the entry says, so it is left as it is. */
  predicate TooShort(e: NoteEntry)
  {
    e.components > 0 && |e.data| / e.components < FormatSize(e.format)
  }

  /** That is, when it has fewer bytes than its components take. */
  lemma {:induction false} TooShortExactly(e: NoteEntry)
    ensures TooShort(e) <==> e.components > 0 && |e.data| < FormatSize(e.format) * e.components
  {
    if e.components > 0 {
      var c, s, d := e.components, FormatSize(e.format), |e.data|;
      var q := d / c;
      assert d == c * q + d % c;
      if q < s {
        MulMonotone(c, q + 1, s);
        assert c * (q + 1) == c * q + c;
      } else {
        MulMonotone(c, s, q);
      }
      assert c * s == s * c;
    }
  }

  lemma {:induction false} LongEnough(e: NoteEntry)
    requires !TooShort(e)
    ensures ValueBytes(e.format, e.components) <= |e.data|
  {
    ValueBytesIsProduct(e.format, e.components);
    if e.components > 0 {
      var q := |e.data| / e.components;
      assert |e.data| >= e.components * q;
      MulMonotone(e.components, FormatSize(e.format), q);
      assert e.components * FormatSize(e.format) == FormatSize(e.format) * e.components;
    }
  }

  /** One turn of a set_byte_order loop: from the note's order `a` to `b`. */
  function SwitchedEntry(e: NoteEntry, a: ByteOrder, b: ByteOrder): (r: NoteEntry)
    ensures r.tag == e.tag && r.format == e.format && r.components == e.components && |r.data| == |e.data|
  {
    if TooShort(e) then e
    else
      LongEnough(e);
      e.(order := b, data := Switched(e.format, e.data, e.components, a, b))
  }

  function SwitchedNote(n: Note, b: ByteOrder): Note
  {
    n.(order := b, entries := seq(|n.entries|,
      i requires 0 <= i < |n.entries| => SwitchedEntry(n.entries[i], n.order, b)))
  }

  /** An entry whose data are in the order it records, which is the note's, with a value of the size it says. */
  predicate Consistent(n: Note, e: NoteEntry)
  {
    e.order == n.order && |e.data| == ValueSize(e)
  }

  predicate AllConsistent(n: Note)
  {
    forall i :: 0 <= i < |n.entries| ==> Consistent(n, n.entries[i])
  }

  /** Component `k`, or half `k` of a rational, reads the same in both entries, each in the order it records. */
  predicate ReadsTheSame(e: NoteEntry, r: NoteEntry, k: nat)
  {
    && (Unit(e.format) == 2 && k < e.components ==>
          2 * k + 2 <= |e.data| && 2 * k + 2 <= |r.data|
            && GetShort(r.data, 2 * k, r.order) == GetShort(e.data, 2 * k, e.order))
    && (Unit(e.format) == 4 && k < Units(e.format, e.components) ==>
          4 * k + 4 <= |e.data| && 4 * k + 4 <= |r.data|
            && GetLong(r.data, 4 * k, r.order) == GetLong(e.data, 4 * k, e.order))
  }

  /** The recorded order stays true of the data: every component reads the same after the change. */
  lemma {:induction false} EntryKeepsMeaning(n: Note, i: nat, b: ByteOrder, k: nat)
    requires i < |n.entries| && n.entries[i].order == n.order && !TooShort(n.entries[i])
    ensures ReadsTheSame(n.entries[i], SwitchedNote(n, b).entries[i], k) && SwitchedNote(n, b).entries[i].order == b
  {
    hide Switched, GetShort, GetLong, TooShort;
    var e := n.entries[i];
    LongEnough(e);
    if Unit(e.format) == 2 && k < e.components {
      ShortsKeep(e.format, e.data, e.components, n.order, b, k);
    }
    if Unit(e.format) == 4 && k < Units(e.format, e.components) {
      LongsKeep(e.format, e.data, e.components, n.order, b, k);
    }
  }

  /** An entry with fewer bytes than its components take stays as it is, and only such an entry keeps its old order. */
  lemma {:induction false} ShortOnesStay(n: Note, i: nat, b: ByteOrder)
    requires i < |n.entries|
    ensures var e, r := n.entries[i], SwitchedNote(n, b).entries[i];
      if |e.data| < FormatSize(e.format) * e.components then r == e
      else r.order == b && |r.data| == |e.data| && (Unit(e.format) == 0 ==> r.data == e.data)
  {
    hide FormatSize, Switched;
    var e := n.entries[i];
    TooShortExactly(e);
    if !TooShort(e) {
      LongEnough(e);
      NoUnits(e.format, e.data, e.components, n.order, b);
    }
  }

  lemma {:induction false} NoUnits(f: int, s: bytes, n: nat, a: ByteOrder, b: ByteOrder)
    requires ValueBytes(f, n) <= |s|
    ensures Unit(f) == 0 ==> Switched(f, s, n, a, b) == s
  {
  }

  lemma {:induction false} EntryBack(e: NoteEntry, a: ByteOrder, b: ByteOrder)
    requires e.order == a
    ensures SwitchedEntry(SwitchedEntry(e, a, b), b, a) == e
  {
    hide Switched;
    if !TooShort(e) {
      LongEnough(e);
      SwitchedBack(e.format, e.data, e.components, a, b);
    }
  }

  /** Switching a note to another order and back restores it. */
  lemma {:induction false} NoteBack(n: Note, b: ByteOrder)
    requires forall i :: 0 <= i < |n.entries| ==> n.entries[i].order == n.order
    ensures SwitchedNote(SwitchedNote(n, b), n.order) == n
  {
    hide SwitchedEntry;
    var m := SwitchedNote(n, b);
    forall i | 0 <= i < |n.entries| ensures SwitchedNote(m, n.order).entries[i] == n.entries[i] {
      EntryBack(n.entries[i], n.order, b);
    }
  }

  // ---- Canon's flat list of values ----

  /** The values of the first `k` entries. */
  function Prefix(es: seq<NoteEntry>, k: nat): nat
    requires k <= |es|
  {
    if k == 0 then 0 else Prefix(es, k - 1) + CountValues(es[k - 1])
  }

  lemma {:induction false} PrefixTail(es: seq<NoteEntry>, k: nat)
    requires 0 < k <= |es|
    ensures Prefix(es, k) == CountValues(es[0]) + Prefix(es[1..], k - 1)
    decreases k
  {
    hide CountValues;
    if k > 1 {
      PrefixTail(es, k - 1);
    }
  }

  /** The two ways of adding up agree. */
  lemma {:induction false} PrefixIsSum(es: seq<NoteEntry>)
    ensures Prefix(es, |es|) == SumCounts(es)
    decreases |es|
  {
    hide CountValues;
    if es != [] {
      PrefixIsSum(es[1..]);
      PrefixTail(es, |es|);
    }
  }

  lemma {:induction false} PrefixMonotone(es: seq<NoteEntry>, j: nat, k: nat)
    requires j <= k <= |es|
    ensures Prefix(es, j) <= Prefix(es, k)
    decreases k
  {
    hide CountValues;
    if j < k {
      PrefixMonotone(es, j, k - 1);
    }
  }

  /** The entry and the place in it that stand behind flat index `n`. */
  predicate StandsBehind(es: seq<NoteEntry>, n: nat, m: nat, s: nat)
  {
    m < |es| && Prefix(es, m) + s == n && s < CountValues(es[m])
  }

  /** exif_mnote_data_canon_get_tags. */
  method GetTags(es: seq<NoteEntry>, n: nat) returns (m: nat, s: nat)
    ensures n < SumCounts(es) ==> StandsBehind(es, n, m, s)
    ensures n >= SumCounts(es) ==> m == |es| && s == 0
  {
    hide CountValues;
    var from := 0;
    m, s := 0, 0;
    PrefixIsSum(es);
    while m < |es|
      invariant m <= |es| && from == Prefix(es, m) <= n
    {
      var to := from + CountValues(es[m]);
      if to > n {
        s := n - from;
        PrefixMonotone(es, m + 1, |es|);
        return;
      }
      from := to;
      m := m + 1;
    }
  }

  /** exif_mnote_data_canon_count. */
  method Count(es: seq<NoteEntry>) returns (c: nat)
    ensures c == SumCounts(es)
  {
    hide CountValues;
    c := 0;
    PrefixIsSum(es);
    for i := 0 to |es|
      invariant c == Prefix(es, i)
    {
      c := c + CountValues(es[i]);
    }
  }

  /** No two places stand behind the same index, and none behind two. */
  lemma {:induction false} FlatIndexUnique(es: seq<NoteEntry>, n: nat, m: nat, s: nat, n': nat, m': nat, s': nat)
    requires StandsBehind(es, n, m, s) && StandsBehind(es, n', m', s')
    ensures n == n' <==> m == m' && s == s'
  {
    hide CountValues;
    if m < m' {
      PrefixMonotone(es, m + 1, m');
    } else if m' < m {
      PrefixMonotone(es, m' + 1, m);
    }
  }

  /** Every place in every entry stands behind some index below the count. */
  lemma {:induction false} FlatIndexOnto(es: seq<NoteEntry>, m: nat, s: nat)
    requires m < |es| && s < CountValues(es[m])
    ensures Prefix(es, m) + s < SumCounts(es) && StandsBehind(es, Prefix(es, m) + s, m, s)
  {
    hide CountValues;
    PrefixIsSum(es);
    PrefixMonotone(es, m + 1, |es|);
  }

  lemma {:induction false} CollectBound(ps: seq<Parsed>, total: nat)
    requires total <= FAILSAFE_SIZE_MAX
    ensures total + SumCounts(Collect(CanonF, ps, total)) <= FAILSAFE_SIZE_MAX
    decreases |ps|
  {
    hide CountValues;
    if ps != [] {
      match ps[0]
      case Abort =>
      case Skip => CollectBound(ps[1..], total);
      case Keep(e) =>
        var total' := total + CountValues(e);
        if total' <= FAILSAFE_SIZE_MAX {
          CollectBound(ps[1..], total');
          var rest := Collect(CanonF, ps[1..], total');
          assert ([e] + rest)[1..] == rest;
        }
    }
  }

  /**
   Loading a Canon note never leaves more than a million values, unless they were there before; a new handler has none.
   */
  lemma {:induction false} LoadBound(n: Note, b: bytes)
    requires n.family.CanonF?
    ensures Load(n, b).entries == n.entries || SumCounts(Load(n, b).entries) <= 1_000_000
    ensures SumCounts(n.entries) <= 1_000_000 ==> SumCounts(Load(n, b).entries) <= 1_000_000
  {
    hide CountValues, Collect, ParseAll, GetShort;
    if b != [] && Locate(n, b).Go? {
      var l := Locate(n, b);
      var c := GetShort(b, l.countAt, l.note.order);
      CollectBound(ParseAll(CanonF, l.note.order, b, l.countAt + 2, c, l.base, l.pointerBase), 0);
    }
  }

  lemma {:induction false} CountKept(n: Note, e: NoteEntry, b: ByteOrder)
    requires Consistent(n, e)
    ensures CountValues(SwitchedEntry(e, n.order, b)) == CountValues(e)
  {
    hide Switched, GetShort;
    if !TooShort(e) && e.format == FMT_SHORT && |e.data| >= 2 {
      LongEnough(e);
      ShortsKeep(e.format, e.data, e.components, n.order, b, 0);
    }
  }

  lemma {:induction false} SumKept(n: Note, es: seq<NoteEntry>, rs: seq<NoteEntry>, b: ByteOrder)
    requires |rs| == |es| && forall i :: 0 <= i < |es| ==>
      Consistent(n, es[i]) && rs[i] == SwitchedEntry(es[i], n.order, b)
    ensures SumCounts(rs) == SumCounts(es)
    decreases |es|
  {
    hide CountValues, SwitchedEntry;
    if es != [] {
      CountKept(n, es[0], b);
      SumKept(n, es[1..], rs[1..], b);
    }
  }

  /** A byte-order change leaves the flattened count alone. */
  lemma {:induction false} CountUnchanged(n: Note, b: ByteOrder)
    requires AllConsistent(n)
    ensures SumCounts(SwitchedNote(n, b).entries) == SumCounts(n.entries)
  {
    hide SwitchedEntry, CountValues, Consistent;
    SumKept(n, n.entries, SwitchedNote(n, b).entries, b);
  }

  // ---- Notes that have been loaded ----

  /** What a record parses as is in the order that is being loaded, and of the size it says. */
  lemma {:induction false} ParsedConsistent(f: Family, n: Note, b: bytes, o: nat, base: int, pointerBase: nat)
    ensures var p := ParseOne(f, n.order, b, o, base, pointerBase); p.Keep? ==> Consistent(n, p.e)
  {
    hide Tiff.ReadFields, ValueBytes;
  }

  lemma {:induction false} CollectedConsistent(n: Note, ps: seq<Parsed>, total: nat)
    requires forall k :: 0 <= k < |ps| && ps[k].Keep? ==> Consistent(n, ps[k].e)
    ensures forall i :: 0 <= i < |Collect(n.family, ps, total)| ==> Consistent(n, Collect(n.family, ps, total)[i])
    decreases |ps|
  {
    hide CountValues, Consistent;
    if ps != [] {
      match ps[0]
      case Abort =>
      case Skip => CollectedConsistent(n, ps[1..], total);
      case Keep(e) =>
        CollectedConsistent(n, ps[1..], if n.family.CanonF? then total + CountValues(e) else total);
    }
  }

  /** A load that stores entries stores consistent ones, of any family. */
  lemma {:induction false} LoadConsistent(n: Note, b: bytes)
    ensures Load(n, b).entries == n.entries || AllConsistent(Load(n, b))
  {
    hide CountValues, Collect, ParseOne, GetShort, Consistent, Locate;
    if b != [] && Locate(n, b).Go? {
      var l := Locate(n, b);
      var c := GetShort(b, l.countAt, l.note.order);
      var ps := ParseAll(n.family, l.note.order, b, l.countAt + 2, c, l.base, l.pointerBase);
      forall k | 0 <= k < |ps| && ps[k].Keep? ensures Consistent(l.note, ps[k].e) {
        ParsedConsistent(n.family, l.note, b, l.countAt + 2 + 12 * k, l.base, l.pointerBase);
      }
      CollectedConsistent(l.note, ps, 0);
      SameOrder(l.note, Load(n, b));
    }
  }

  lemma {:induction false} SameOrder(a: Note, b: Note)
    requires a.order == b.order
    ensures forall e :: Consistent(a, e) == Consistent(b, e)
  {
  }

  /** Consistent entries have enough data to be switched, and stay consistent. */
  lemma {:induction false} ConsistentStays(n: Note, b: ByteOrder)
    requires AllConsistent(n)
    ensures AllConsistent(SwitchedNote(n, b))
    ensures forall i :: 0 <= i < |n.entries| ==> !TooShort(n.entries[i])
  {
    hide Switched;
    forall i | 0 <= i < |n.entries|
      ensures Consistent(SwitchedNote(n, b), SwitchedNote(n, b).entries[i]) && !TooShort(n.entries[i]) {
      assert Consistent(n, n.entries[i]);
      EnoughData(n.entries[i]);
    }
  }

  lemma {:induction false} EnoughData(e: NoteEntry)
    requires |e.data| == ValueSize(e)
    ensures !TooShort(e)
  {
    ValueBytesIsProduct(e.format, e.components);
    if e.components > 0 {
      DivModUnique(|e.data|, e.components, FormatSize(e.format), 0);
    }
  }

  /**
   Any load into a new handler: the note can be switched to the other order and back, again and again, with the same
   count, and each component reads the same as it did before.
   */
  lemma {:induction false} LoadedSwitches(n: Note, b: bytes, o: ByteOrder)
    requires n.entries == []
    ensures var r := Load(n, b); var t := SwitchedNote(r, o);
      && AllConsistent(r) && AllConsistent(t) && SumCounts(t.entries) == SumCounts(r.entries)
      && SwitchedNote(t, r.order) == r
      && forall i, k: nat :: 0 <= i < |r.entries| ==> ReadsTheSame(r.entries[i], t.entries[i], k)
  {
    hide Load, SwitchedEntry, CountValues, Switched, ReadsTheSame;
    var r := Load(n, b);
    LoadConsistent(n, b);
    assert AllConsistent(r);
    ConsistentStays(r, o);
    CountUnchanged(r, o);
    NoteBack(r, o);
    forall i, k: nat | 0 <= i < |r.entries| ensures ReadsTheSame(r.entries[i], SwitchedNote(r, o).entries[i], k) {
      assert Consistent(r, r.entries[i]);
      EntryKeepsMeaning(r, i, o, k);
    }
  }
}
