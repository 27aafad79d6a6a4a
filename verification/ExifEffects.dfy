/** Making the entries of a directory effective, one after the other. */
module ExifEffects {
  import opened Tiff
  import opened ExifTypes
  import opened ExifLayout

  lemma {:induction false} ValuesPrefix(a: seq<Slot>, b: seq<Slot>, n: nat)
    requires n <= |a| && n <= |b| && forall k :: 0 <= k < n ==> a[k] == b[k]
    ensures Values(a, n, true) == Values(b, n, true)
  {
    hide OutOfLine;
    if n > 0 {
      ValuesPrefix(a, b, n - 1);
    }
  }

  lemma {:induction false} EffsPrefix(m: Model, es: seq<Entry>, n: nat, start: nat, j: nat)
    requires j <= n <= |es|
    ensures Effs(m, es, n, start)[..j] == Effs(m, es, j, start)
  {
    hide Effective, Values, SlotsOf;
    if j < n {
      EffsPrefix(m, es, n - 1, start, j);
      assert Effs(m, es, n, start)[..j] == Effs(m, es, n - 1, start)[..j];
    } else {
      assert Effs(m, es, n, start)[..n] == Effs(m, es, n, start);
    }
  }

  /** Entry `j` is made effective for the place behind the values before it. */
  lemma {:induction false} EffectiveAt(m: Model, es: seq<Entry>, start: nat, j: nat)
    requires j < |es|
    ensures var effs := Effs(m, es, |es|, start);
      effs[j] == Effective(m, es[j], start + |Values(SlotsOf(es, effs), j, true)|)
  {
    hide Effective, Values, SlotOf;
    var n := |es|;
    var effs := Effs(m, es, n, start);
    EffsPrefix(m, es, n, start, j);
    EffsPrefix(m, es, n, start, j + 1);
    assert effs[j] == Effs(m, es, j + 1, start)[j];
    ValuesPrefix(SlotsOf(es[..j], Effs(m, es, j, start)), SlotsOf(es, effs), j);
  }
}
