/** Worked catalogs: what SKUSelect computes on small, concrete inputs. */
module SkuExamples {
  import opened Primes
  import opened SkuIndex
  import opened SkuSelection
  import opened SkuSelect

  /** 2, 3, 5 and 7 are the first four primes. */
  lemma FirstFourPrimes()
    ensures IsFirstPrimes([2, 3, 5, 7], 4)
  {
    var s: seq<nat> := [2, 3, 5, 7];
    forall k | 0 <= k < 4 ensures IsPrime(s[k]) {
      forall d | 2 <= d < s[k] ensures !Divides(d, s[k]) {
        assert d == 2 || d == 3 || d == 4 || d == 5 || d == 6;
      }
    }
    forall p | IsPrime(p) && p <= 7 ensures p in s {
      assert p == 4 ==> Divides(2, p);
      assert p == 6 ==> Divides(2, p);
    }
  }

  /** 2, 3, 5, 7, 11 and 13 are the first six primes. */
  lemma FirstSixPrimes()
    ensures IsFirstPrimes([2, 3, 5, 7, 11, 13], 6)
  {
    var s: seq<nat> := [2, 3, 5, 7, 11, 13];
    forall k | 0 <= k < 6 ensures IsPrime(s[k]) {
      forall d | 2 <= d < s[k] ensures !Divides(d, s[k]) {
        assert 2 <= d <= 12;
      }
    }
    forall p | IsPrime(p) && p <= 13 ensures p in s {
      assert p in {4, 6, 8, 10, 12} ==> Divides(2, p);
      assert p == 9 ==> Divides(3, p);
    }
  }

  lemma FlattenTwo(a: seq<Value>, b: seq<Value>)
    ensures Flatten([a, b]) == a + b
  {
    assert [a][..0] == [];
    assert Flatten([a]) == a;
    assert [a, b][..1] == [a];
  }

  lemma ProductTwo(x: Value, y: Value, primeOf: map<Value, nat>)
    requires x in primeOf && y in primeOf
    ensures PrimesProduct([x, y], primeOf) == primeOf[x] * primeOf[y]
  {
    assert [x][..0] == [];
    assert PrimesProduct([x], primeOf) == primeOf[x];
    assert [x, y][..1] == [x];
  }

  lemma ProductThree(x: Value, y: Value, z: Value, primeOf: map<Value, nat>)
    requires x in primeOf && y in primeOf && z in primeOf
    ensures PrimesProduct([x, y, z], primeOf) == primeOf[x] * primeOf[y] * primeOf[z]
  {
    assert [x, y, z][..2] == [x, y];
    ProductTwo(x, y, primeOf);
  }

  /** Inserting four pairs in order gives the map of those four pairs. */
  lemma FourEntries(a: Value, b: Value, c: Value, d: Value)
    ensures FromEntries([a, b, c, d], [2, 3, 5, 7]) == map[a := 2, b := 3, c := 5, d := 7]
  {
    assert [a, b, c, d][..3] == [a, b, c] && [2, 3, 5, 7][..3] == [2, 3, 5];
    assert [a, b, c][..2] == [a, b] && [2, 3, 5][..2] == [2, 3];
    assert [a, b][..1] == [a] && [2, 3][..1] == [2];
    assert [a][..0] == [] && [2][..0] == [];
    assert FromEntries([a], [2]) == map[a := 2];
    assert FromEntries([a, b], [2, 3]) == map[a := 2, b := 3];
    assert FromEntries([a, b, c], [2, 3, 5]) == map[a := 2, b := 3, c := 5];
  }

  /** The value-to-prime map for two groups of two values and the first four primes. */
  lemma TwoByTwoPrimeMap(a: Value, b: Value, c: Value, d: Value, primes: seq<nat>)
    requires primes == [2, 3, 5, 7]
    ensures |primes| == |Flatten([[a, b], [c, d]])|
    ensures BuildPrimeBySKUPropValue([[a, b], [c, d]], primes) == map[a := 2, b := 3, c := 5, d := 7]
  {
    FlattenTwo([a, b], [c, d]);
    assert Flatten([[a, b], [c, d]]) == [a, b, c, d];
    FourEntries(a, b, c, d);
  }

  /** Four props get the first four primes. */
  lemma FourPrimes(primes: seq<nat>)
    requires IsFirstPrimes(primes, 4)
    ensures primes == [2, 3, 5, 7]
  {
    FirstFourPrimes();
    FirstPrimesUnique(primes, [2, 3, 5, 7]);
  }

  // ---------------------------------------------------------------------------
  // Colors Red/Blue, sizes S/M, SKUs V1 = Red+S, V2 = Red+M, V3 = Blue+S

  const Red: Value := Str("Red")
  const Blue: Value := Str("Blue")
  const Small: Value := Str("S")
  const Medium: Value := Str("M")
  const V3: Sku := Sku(Str("V3"), [Blue, Small])

  function ColorSizeGroups(): seq<seq<Value>> {
    [[Red, Blue], [Small, Medium]]
  }

  function ColorSizeSkus(): seq<Sku> {
    [Sku(Str("V1"), [Red, Small]), Sku(Str("V2"), [Red, Medium]), V3]
  }

  function ColorSizePrimeOf(): map<Value, nat> {
    map[Red := 2, Blue := 3, Small := 5, Medium := 7]
  }

  /** The codes: V1 = 2 * 5, V2 = 2 * 7, V3 = 3 * 5. */
  lemma ColorSizeEntries()
    ensures SkusMapped(ColorSizeSkus(), ColorSizePrimeOf())
    ensures BuildSKUIdPrimesProductEntries(ColorSizeSkus(), ColorSizePrimeOf())
              == [(Str("V1"), 10), (Str("V2"), 14), (Str("V3"), 15)]
  {
    ProductTwo(Red, Small, ColorSizePrimeOf());
    ProductTwo(Red, Medium, ColorSizePrimeOf());
    ProductTwo(Blue, Small, ColorSizePrimeOf());
  }

  lemma OnlyBlueSelected()
    ensures SelectedValues([Some(Blue), None]) == [Blue]
  {
    var sel := [Some(Blue), None];
    assert sel[1..] == [None];
    assert sel[1..][1..] == [];
  }

  /** No code is divisible by 3 * 7, so with Blue selected M is disabled. */
  lemma MediumDisabledAfterBlue(entries: seq<Entry>)
    requires entries == [(Str("V1"), 10), (Str("V2"), 14), (Str("V3"), 15)]
    ensures Disabled([Some(Blue), None], 1, entries, ColorSizePrimeOf(), Medium)
  {
    OnlyBlueSelected();
    assert [Some(Blue), None][0].Some?;
    assert !Compatible(entries, ColorSizePrimeOf(), Blue, Medium);
  }

  /** V3's code 15 is divisible by 3 * 5, so with Blue selected S stays enabled. */
  lemma SmallEnabledAfterBlue(entries: seq<Entry>)
    requires entries == [(Str("V1"), 10), (Str("V2"), 14), (Str("V3"), 15)]
    ensures !Disabled([Some(Blue), None], 1, entries, ColorSizePrimeOf(), Small)
  {
    OnlyBlueSelected();
    assert Compatible(entries, ColorSizePrimeOf(), Blue, Small) by {
      assert entries[2] in entries;
    }
  }

  /** Red shares Blue's group, the only selected one, so it stays enabled. */
  lemma RedEnabledAfterBlue(entries: seq<Entry>)
    ensures !Disabled([Some(Blue), None], 0, entries, ColorSizePrimeOf(), Red)
  {
    OwnGroupNeverDisables([Some(Blue), None], 0, entries, ColorSizePrimeOf(), Red);
  }

  /** With Blue selected, M is disabled (no SKU has Blue and M) while S and Red are not. */
  lemma BlueSelected()
    ensures var entries := [(Str("V1"), 10), (Str("V2"), 14), (Str("V3"), 15)];
      && Disabled([Some(Blue), None], 1, entries, ColorSizePrimeOf(), Medium)
      && !Disabled([Some(Blue), None], 1, entries, ColorSizePrimeOf(), Small)
      && !Disabled([Some(Blue), None], 0, entries, ColorSizePrimeOf(), Red)
  {
    var entries: seq<Entry> := [(Str("V1"), 10), (Str("V2"), 14), (Str("V3"), 15)];
    MediumDisabledAfterBlue(entries);
    SmallEnabledAfterBlue(entries);
    RedEnabledAfterBlue(entries);
  }

  /** Blue and S are exactly V3's values, and V3 is the only SKU with code 15 or id "V3". */
  lemma BlueAndSmallSelectV3()
    ensures SelectedValues([Some(Blue), Some(Small)]) == V3.values
    ensures ColorSizeSkus()[2] == V3
    ensures forall j :: 0 <= j < 2 ==> ColorSizeSkus()[j].id != V3.id
  {
    var sel := [Some(Blue), Some(Small)];
    assert sel[1..] == [Some(Small)];
    assert sel[1..][1..] == [];
  }

  /** What the constructor builds for the catalog above. */
  lemma ColorSizeIndexed(select: SKUSelect)
    requires select.Indexed()
    requires select.groups == ColorSizeGroups() && select.skus == ColorSizeSkus()
    ensures ColorSizeBuilt(select)
  {
    FlattenTwo([Red, Blue], [Small, Medium]);
    FourPrimes(select.primes);
    TwoByTwoPrimeMap(Red, Blue, Small, Medium, select.primes);
    ColorSizeEntries();
    ColorSizePrimeGroups();
  }

  /** No SKU before V3 has V3's code or id. */
  lemma ColorSizeV3Unique(select: SKUSelect)
    requires select.skus == ColorSizeSkus()
    requires select.entries == [(Str("V1"), 10), (Str("V2"), 14), (Str("V3"), 15)]
    ensures select.skus[2] == V3
    ensures forall j :: 0 <= j < 2 ==> select.entries[j].1 != select.entries[2].1 && select.skus[j].id != select.skus[2].id
  {
  }

  /** The groups' primes, group by group. */
  lemma ColorSizePrimeGroups()
    ensures GroupsMapped(ColorSizeGroups(), ColorSizePrimeOf())
    ensures BuildPrimeGroups(ColorSizeGroups(), ColorSizePrimeOf()) == [[2, 3], [5, 7]]
  {
    var pg := BuildPrimeGroups(ColorSizeGroups(), ColorSizePrimeOf());
    assert |pg| == 2 && |pg[0]| == 2 && |pg[1]| == 2;
    assert pg[0] == [pg[0][0], pg[0][1]] && pg[1] == [pg[1][0], pg[1][1]];
  }

  /** Red and Blue are found in group 0, S and M in group 1. */
  lemma ColorSizeGroupIndexes()
    ensures FindGroupIndexOfSKUProp([[2, 3], [5, 7]], ColorSizePrimeOf(), Red) == 0
    ensures FindGroupIndexOfSKUProp([[2, 3], [5, 7]], ColorSizePrimeOf(), Blue) == 0
    ensures FindGroupIndexOfSKUProp([[2, 3], [5, 7]], ColorSizePrimeOf(), Small) == 1
    ensures FindGroupIndexOfSKUProp([[2, 3], [5, 7]], ColorSizePrimeOf(), Medium) == 1
  {
    var primeGroups: seq<seq<nat>> := [[2, 3], [5, 7]];
    assert primeGroups[1..] == [[5, 7]];
    assert IndexOfGroupContaining(primeGroups[1..], 5) == 0;
    assert IndexOfGroupContaining(primeGroups[1..], 7) == 0;
  }

  /** Toggling Blue into the empty selection, then S into its size slot. */
  lemma ColorSizeToggles()
    ensures Toggled([None, None], 0, Blue) == [Some(Blue), None]
    ensures Toggled([Some(Blue), None], 1, Small) == [Some(Blue), Some(Small)]
  {
    assert Some(Blue) !in [None, None];
    assert Some(Small) !in [Some(Blue), None];
  }

  /** The index fields of an SKUSelect built for the catalog above. */
  ghost predicate ColorSizeBuilt(select: SKUSelect)
    reads select
  {
    && select.skus == ColorSizeSkus()
    && select.primeOf == ColorSizePrimeOf()
    && select.entries == [(Str("V1"), 10), (Str("V2"), 14), (Str("V3"), 15)]
    && select.primeGroups == [[2, 3], [5, 7]]
  }

  /** The constructor on the catalog: both slots start empty. */
  method NewColorSizeSelect() returns (select: SKUSelect)
    ensures select.Valid() && fresh(select.selected)
    ensures select.groups == ColorSizeGroups() && select.skus == ColorSizeSkus()
    ensures forall i :: 0 <= i < select.selected.Length ==> select.selected[i] == None
  {
    var groups := ColorSizeGroups();
    var skus := ColorSizeSkus();
    assert forall i :: 0 <= i < |skus| ==> forall v :: v in skus[i].values ==> InSomeGroup(groups, v) by {
      assert Red in groups[0] && Blue in groups[0] && Small in groups[1] && Medium in groups[1];
    }
    select := new SKUSelect(groups, skus);
  }

  /** Selecting Blue: M becomes disabled, S and Red stay enabled. */
  method SelectBlue(select: SKUSelect) returns (mDisabled: bool, sDisabled: bool, redDisabled: bool)
    requires select.Valid() && ColorSizeBuilt(select) && select.selected[..] == [None, None]
    modifies select.selected
    ensures select.Valid() && select.selected[..] == [Some(Blue), None]
    ensures mDisabled && !sDisabled && !redDisabled
  {
    BlueSelected();
    ColorSizeGroupIndexes();
    ColorSizeToggles();
    select.SelectSKUProp(Blue);
    assert select.selected[..] == [Some(Blue), None];
    mDisabled := select.CheckIsSKUPropDisabled(Medium);
    sDisabled := select.CheckIsSKUPropDisabled(Small);
    redDisabled := select.CheckIsSKUPropDisabled(Red);
  }

  /** Selecting S next resolves SKU V3. */
  method SelectSmall(select: SKUSelect)
    requires select.Valid() && ColorSizeBuilt(select) && select.selected[..] == [Some(Blue), None]
    modifies select.selected
    ensures select.Valid() && select.GetSelectedSKU() == Some(V3)
  {
    ColorSizeGroupIndexes();
    ColorSizeToggles();
    select.SelectSKUProp(Small);
    assert select.selected[..] == [Some(Blue), Some(Small)];
    BlueAndSmallSelectV3();
    ColorSizeV3Unique(select);
    select.SelectingSkuValuesResolves(2);
  }

  /**
   * The class on the catalog above: after selecting Blue, M is disabled while S
   * and Red stay enabled; after also selecting S, the selected SKU is V3.
   */
  method ColorSizeScenario() returns (resolved: Option<Sku>)
    ensures resolved == Some(V3)
  {
    var select := NewColorSizeSelect();
    ColorSizeIndexed(select);
    assert select.selected.Length == 2;
    assert select.selected[..] == [None, None];
    var _, _, _ := SelectBlue(select);
    SelectSmall(select);
    resolved := select.GetSelectedSKU();
  }

  // ---------------------------------------------------------------------------
  // The code's test is weaker than a per-group one. Colors Red/Blue, sizes S/M,
  // materials Cotton/Wool, SKUs 1 = Red+S+Cotton and 2 = Blue+M+Wool.

  const Cotton: Value := Str("Cotton")
  const Wool: Value := Str("Wool")

  function MaterialSkus(): seq<Sku> {
    [Sku(Num(1), [Red, Small, Cotton]), Sku(Num(2), [Blue, Medium, Wool])]
  }

  function MaterialGroups(): seq<seq<Value>> {
    [[Red, Blue], [Small, Medium], [Cotton, Wool]]
  }

  function MaterialPrimeOf(): map<Value, nat> {
    map[Red := 2, Blue := 3, Small := 5, Medium := 7, Cotton := 11, Wool := 13]
  }

  /** Inserting six pairs in order gives the map of those six pairs. */
  lemma SixEntries(a: Value, b: Value, c: Value, d: Value, e: Value, f: Value)
    ensures FromEntries([a, b, c, d, e, f], [2, 3, 5, 7, 11, 13])
         == map[a := 2, b := 3, c := 5, d := 7, e := 11, f := 13]
  {
    FourEntries(a, b, c, d);
    assert [a, b, c, d, e, f][..5] == [a, b, c, d, e] && [2, 3, 5, 7, 11, 13][..5] == [2, 3, 5, 7, 11];
    assert [a, b, c, d, e][..4] == [a, b, c, d] && [2, 3, 5, 7, 11][..4] == [2, 3, 5, 7];
  }

  /**
   * The map above is what the builder gives the material catalog's six props
   * when they are handed the first six primes.
   */
  lemma MaterialPrimeMap(primes: seq<nat>)
    requires IsFirstPrimes(primes, 6)
    ensures |primes| == |Flatten(MaterialGroups())|
    ensures BuildPrimeBySKUPropValue(MaterialGroups(), primes) == MaterialPrimeOf()
  {
    FirstSixPrimes();
    FirstPrimesUnique(primes, [2, 3, 5, 7, 11, 13]);
    var groups := MaterialGroups();
    FlattenTwo([Red, Blue], [Small, Medium]);
    assert groups[..2] == [[Red, Blue], [Small, Medium]];
    assert Flatten(groups) == [Red, Blue, Small, Medium, Cotton, Wool];
    SixEntries(Red, Blue, Small, Medium, Cotton, Wool);
  }

  /** The codes: 2 * 5 * 11 and 3 * 7 * 13. */
  lemma MaterialEntries()
    ensures SkusMapped(MaterialSkus(), MaterialPrimeOf())
    ensures BuildSKUIdPrimesProductEntries(MaterialSkus(), MaterialPrimeOf()) == [(Num(1), 110), (Num(2), 273)]
  {
    ProductThree(Red, Small, Cotton, MaterialPrimeOf());
    ProductThree(Blue, Medium, Wool, MaterialPrimeOf());
  }

  lemma RedAndWoolSelected()
    ensures SelectedValues([Some(Red), None, Some(Wool)]) == [Red, Wool]
  {
    var sel := [Some(Red), None, Some(Wool)];
    assert sel[1..] == [None, Some(Wool)];
    assert sel[1..][1..] == [Some(Wool)];
    assert sel[1..][1..][1..] == [];
  }

  /**
   * With Red and Wool selected, no SKU has both S and Wool, yet S is not
   * disabled, because S is compatible with the other selected value, Red.
   */
  /** S is found in group 1 of the material catalog's prime groups. */
  lemma MaterialGroupIndexOfSmall()
    ensures GroupsMapped(MaterialGroups(), MaterialPrimeOf())
    ensures FindGroupIndexOfSKUProp(BuildPrimeGroups(MaterialGroups(), MaterialPrimeOf()), MaterialPrimeOf(), Small) == 1
  {
    var pg := BuildPrimeGroups(MaterialGroups(), MaterialPrimeOf());
    assert |pg| == 3 && |pg[0]| == 2 && |pg[1]| == 2;
    assert pg[0] == [2, 3] && pg[1][0] == 5;
    assert IndexOfGroupContaining(pg[1..], 5) == 0;
  }

  lemma PairwiseReadingDisagrees()
    ensures SkusMapped(MaterialSkus(), MaterialPrimeOf()) && GroupsMapped(MaterialGroups(), MaterialPrimeOf())
    ensures var entries := BuildSKUIdPrimesProductEntries(MaterialSkus(), MaterialPrimeOf());
      var g := FindGroupIndexOfSKUProp(BuildPrimeGroups(MaterialGroups(), MaterialPrimeOf()), MaterialPrimeOf(), Small);
      && PairwiseDisabled([Some(Red), None, Some(Wool)], g, entries, MaterialPrimeOf(), Small)
      && !Disabled([Some(Red), None, Some(Wool)], g, entries, MaterialPrimeOf(), Small)
  {
    MaterialGroupIndexOfSmall();
    MaterialEntries();
    RedAndWoolSelected();
    var entries: seq<Entry> := [(Num(1), 110), (Num(2), 273)];
    var sel := [Some(Red), None, Some(Wool)];
    assert !Compatible(entries, MaterialPrimeOf(), Wool, Small);
    assert sel[2].Some? && sel[2].value == Wool;
    assert Compatible(entries, MaterialPrimeOf(), Red, Small) by {
      assert entries[0] in entries;
    }
  }
}
