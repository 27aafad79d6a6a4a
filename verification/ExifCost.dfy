/** The recursion-cost guard: what it lets through, and that it never hits a saved file. */
module ExifCost {
  import opened ExifLoad

  /** 1.1 to the power k. */
  function Pow(k: nat): (p: real)
    ensures p >= 1.0
  {
    if k == 0 then 1.0 else Pow(k - 1) * 1.1
  }

  lemma {:induction false} PowAdd(a: nat, b: nat)
    ensures Pow(a + b) == Pow(a) * Pow(b)
    decreases b
  {
    if b > 0 {
      PowAdd(a, b - 1);
      Associate(Pow(a), Pow(b - 1), 1.1);
    }
  }

  lemma {:induction false} Associate(x: real, y: real, z: real)
    ensures x * y * z == x * (y * z)
  {
  }

  lemma {:induction false} PowMonotone(a: nat, b: nat)
    requires a <= b
    ensures Pow(a) <= Pow(b)
    decreases b
  {
    if a < b {
      PowMonotone(a, b - 1);
    }
  }

  /** The search for the cost finds the least exponent. */
  lemma {:induction false} CostFromLeast(x: real, from: nat, p: real)
    requires p == Pow(from)
    ensures var k := CostFrom(x, from, p); k >= from && Pow(k) >= x && (k > from ==> Pow(k - 1) < x)
    decreases if p >= x then 0.0 else 10.0 * (x - p) + 1.0
  {
    if p < x {
      CostFromLeast(x, from + 1, p * 1.1);
    }
  }

  /** level_cost is the least k with 1.1^k >= n + 0.1. */
  lemma {:induction false} LevelCostLeast(n: nat, k: nat)
    ensures Pow(LevelCost(n)) >= n as real + 0.1
    ensures Pow(k) >= n as real + 0.1 ==> LevelCost(n) <= k
  {
    CostFromLeast(n as real + 0.1, 0, 1.0);
    var c := LevelCost(n);
    if k < c {
      PowMonotone(k, c - 1);
    }
  }

  function Product(path: seq<nat>): nat
  {
    if path == [] then 1 else Product(path[..|path| - 1]) * path[|path| - 1]
  }

  lemma {:induction false} TimesMonotone(a: real, b: real, c: real, d: real)
    requires 0.0 <= a <= b && 0.0 <= c <= d
    ensures a * c <= b * d
  {
    assert a * c <= b * c;
    assert b * c <= b * d;
  }

  /** The work below a chain of directories grows at most as 1.1 to the power of its cost. */
  lemma {:induction false} CostBoundsProduct(path: seq<nat>)
    ensures Product(path) as real <= Pow(PathCost(path))
    decreases |path|
  {
    hide Pow, LevelCost;
    if path != [] {
      var init, n := path[..|path| - 1], path[|path| - 1];
      CostBoundsProduct(init);
      LevelCostLeast(n, 0);
      PowAdd(PathCost(init), LevelCost(n));
      TimesMonotone(Product(init) as real, Pow(PathCost(init)), n as real, Pow(LevelCost(n)));
      assert (Product(init) * n) as real == Product(init) as real * n as real;
    }
  }

  // ---- Saved files ----

  lemma {:induction false} Square(k: nat, low: real)
    requires 0.0 <= low <= Pow(k)
    ensures Pow(2 * k) >= low * low
  {
    PowAdd(k, k);
    TimesMonotone(low, Pow(k), low, Pow(k));
  }

  /** 1.1^167 exceeds the square of half of 5460.2. */
  lemma {:induction false} PowerIsLarge()
    ensures Pow(167) > 2730.1 * 2730.1
  {
    hide Pow;
    SmallPowers();
    Square(5, 1.61);
    Square(10, 2.59);
    Square(20, 6.7);
    Square(40, 44.8);
    Square(80, 2007.0);
    PowAdd(160, 7);
    TimesMonotone(4028000.0, Pow(160), 1.94, Pow(7));
  }

  lemma {:induction false} SmallPowers()
    ensures Pow(5) >= 1.61 && Pow(7) >= 1.94
  {
    assert Pow(1) == 1.1;
    assert Pow(2) == 1.21;
    assert Pow(3) == 1.331;
    assert Pow(4) == 1.4641;
    assert Pow(5) == 1.61051;
    assert Pow(6) == 1.771561;
    assert Pow(7) == 1.9487171;
  }

  lemma {:induction false} ProductOfSum(a: real, b: real, s: real)
    requires a + b <= 2.0 * s && 0.0 <= a && 0.0 <= b
    ensures a * b <= s * s
  {
    var d := a - b;
    assert d * d >= 0.0;
    assert 4.0 * (a * b) == (a + b) * (a + b) - d * d;
    TimesMonotone(a + b, 2.0 * s, a + b, 2.0 * s);
  }

  lemma {:induction false} StrictPowers(a: nat, b: nat, x: real, y: real)
    requires Pow(a) <= x && Pow(b) <= y
    ensures Pow(a + b) <= x * y
  {
    PowAdd(a, b);
    TimesMonotone(Pow(a), x, Pow(b), y);
  }

  lemma {:induction false} BelowLevel(n: nat)
    ensures LevelCost(n) > 0 ==> Pow(LevelCost(n) - 1) < n as real + 0.1
  {
    CostFromLeast(n as real + 0.1, 0, 1.0);
  }

  /** Two directories of at most 5460 records together cost at most 168. */
  lemma {:induction false} PairCost(a: nat, b: nat)
    requires a + b <= 5460
    ensures LevelCost(a) + LevelCost(b) <= 168
  {
    var la, lb := LevelCost(a), LevelCost(b);
    if la + lb > 168 {
      BelowLevel(a);
      BelowLevel(b);
      var x, y := a as real + 0.1, b as real + 0.1;
      if la == 0 {
        SingleCost(b);
      } else if lb == 0 {
        SingleCost(a);
      } else {
        StrictPowers(la - 1, lb - 1, x, y);
        ProductOfSum(x, y, 2730.1);
        PowMonotone(167, la - 1 + (lb - 1));
        PowerIsLarge();
        assert false;
      }
    }
  }

  lemma {:induction false} SingleCost(n: nat)
    requires n <= 5460
    ensures LevelCost(n) <= 167
  {
    PowerIsLarge();
    assert 2730.1 * 2730.1 >= 5460.1;
    LevelCostLeast(n, 167);
  }

  lemma {:induction false} PathCostOne(a: nat)
    ensures PathCost([a]) == LevelCost(a)
  {
    assert [a][..0] == [];
  }

  lemma {:induction false} PathCostTwo(a: nat, b: nat)
    ensures PathCost([a] + [b]) == LevelCost(a) + LevelCost(b)
  {
    assert ([a] + [b])[..1] == [a];
    PathCostOne(a);
  }
}
